/** Typed tree assembly (tree_typed.go): a flat list of fetched node records becomes a tree of
    typed values by filling an id-keyed table and appending every record to its parent's
    children in place. */
module Trees {
  import opened Results
  import opened Records
  import opened MapperRegistries

  /** TypedTreeNode[T]: a mapped value and the children appended to it. */
  class TypedTreeNode {
    const node: Payload
    var children: seq<TypedTreeNode>

    constructor (node: Payload)
      ensures this.node == node && children == []
    {
      this.node := node;
      children := [];
    }
  }

  /** The ids of the records in a list. */
  function Ids(nodes: seq<Node>): set<Id> {
    set i | 0 <= i < |nodes| :: nodes[i].core.id
  }

  /** The ids of a list one record longer. */
  lemma IdsSnoc(nodes: seq<Node>, n: Node)
    ensures Ids(nodes + [n]) == Ids(nodes) + {n.core.id}
  {
    var s := nodes + [n];
    assert s[|nodes|] == n;
    forall x | x in Ids(nodes) ensures x in Ids(s) {
      var i :| 0 <= i < |nodes| && nodes[i].core.id == x;
      assert s[i] == nodes[i];
    }
  }

  /** The position of the last record with id `id`: the one whose entry survives in `byID`. */
  function LastIndexOf(nodes: seq<Node>, id: Id): (k: nat)
    requires id in Ids(nodes)
    ensures k < |nodes| && nodes[k].core.id == id
    ensures forall j :: k < j < |nodes| ==> nodes[j].core.id != id
    decreases |nodes|
  {
    var n := |nodes| - 1;
    if nodes[n].core.id == id then n
    else
      assert nodes == nodes[..n] + [nodes[n]];
      IdsSnoc(nodes[..n], nodes[n]);
      LastIndexOf(nodes[..n], id)
  }

  /** The ids of the records attached under `p`, in input order: those whose parent id is `p`. */
  function ChildIds(nodes: seq<Node>, p: Id): seq<Id>
    decreases |nodes|
  {
    if nodes == [] then []
    else
      var n := |nodes| - 1;
      ChildIds(nodes[..n], p) + (if ParentKey(nodes[n].core) == Some(p) then [nodes[n].core.id] else [])
  }

  /** ChildIds of a list one record longer. */
  lemma ChildIdsSnoc(nodes: seq<Node>, n: Node, p: Id)
    ensures ChildIds(nodes + [n], p) == ChildIds(nodes, p) + (if ParentKey(n.core) == Some(p) then [n.core.id] else [])
  {
    assert (nodes + [n])[..|nodes|] == nodes;
  }

  /** The entries a list of child ids names (every child id has an entry). */
  function ChildObjects(byID: map<Id, TypedTreeNode>, ids: seq<Id>): seq<TypedTreeNode>
    decreases |ids|
  {
    if ids == [] then []
    else
      var x := ids[|ids| - 1];
      ChildObjects(byID, ids[..|ids| - 1]) + (if x in byID then [byID[x]] else [])
  }

  lemma ChildObjectsSnoc(byID: map<Id, TypedTreeNode>, ids: seq<Id>, x: Id)
    requires x in byID
    ensures ChildObjects(byID, ids + [x]) == ChildObjects(byID, ids) + [byID[x]]
  {
    assert (ids + [x])[..|ids|] == ids;
  }

  /** The mapping step of both builders: `mapper.fromNode(n)` and the `v.(*T)` assertion. */
  function MapOne(m: ErasedMapper, t: TypeName, n: Node): (r: Result<Payload>)
    ensures m.mapper.fromNode(n).Err? ==> r == Err(m.mapper.fromNode(n).error)
    ensures m.mapper.fromNode(n).Ok? && m.typ == t ==> r == Ok(m.mapper.fromNode(n).value)
    ensures m.mapper.fromNode(n).Ok? && m.typ != t ==> r == Err(UnexpectedType(t, m.typ))
  {
    match m.FromNode(n)
    case Err(e) => Err(e)
    case Ok(v) => if v.typ != t then Err(UnexpectedType(t, v.typ)) else Ok(v.payload)
  }

  function Mapped(m: ErasedMapper, t: TypeName): Node -> Result<Payload> {
    n => MapOne(m, t, n)
  }

  /** What both builders compute before linking: NotFound on an empty list (before the mapper is
      looked up), the lookup error, the first mapping error, or one value per record. */
  function Stage(byType: map<TypeName, ErasedMapper>, t: TypeName, nodes: seq<Node>): (r: Result<seq<Payload>>)
    ensures r.Ok? ==> |r.value| == |nodes|
  {
    if |nodes| == 0 then Err(NotFound)
    else
      match Lookup(byType, t)
      case Err(e) => Err(e)
      case Ok(m) =>
        TraverseOk(nodes, Mapped(m, t));
        Traverse(nodes, Mapped(m, t))
  }

  /** An empty list fails with NotFound whatever is registered; a missing mapper fails with the
      lookup error; with a registered mapper the stage succeeds exactly when every record maps,
      and then holds the mapped values in input order. */
  lemma StageCases(byType: map<TypeName, ErasedMapper>, t: TypeName, nodes: seq<Node>)
    requires forall u :: u in byType ==> byType[u].typ == u
    ensures |nodes| == 0 ==> Stage(byType, t, nodes) == Err(NotFound)
    ensures |nodes| > 0 && t !in byType ==> Stage(byType, t, nodes) == Err(NoMapper(t))
    ensures |nodes| > 0 && t in byType ==>
              (Stage(byType, t, nodes).Ok? <==> forall i :: 0 <= i < |nodes| ==> byType[t].mapper.fromNode(nodes[i]).Ok?)
    ensures |nodes| > 0 && t in byType && Stage(byType, t, nodes).Ok? ==>
              forall i :: 0 <= i < |nodes| ==> Stage(byType, t, nodes).value[i] == byType[t].mapper.fromNode(nodes[i]).value
  {
    if |nodes| > 0 && t in byType {
      TraverseOk(nodes, Mapped(byType[t], t));
    }
  }

  /** The value at the root of buildTreeFromNodes(nodes, rootID), or its error. */
  function DescendantOutcome(byType: map<TypeName, ErasedMapper>, t: TypeName, nodes: seq<Node>, rootID: Id): Result<Payload> {
    match Stage(byType, t, nodes)
    case Err(e) => Err(e)
    case Ok(vals) => if rootID in Ids(nodes) then Ok(vals[LastIndexOf(nodes, rootID)]) else Err(NotFound)
  }

  /** The id of the last record with a nil or "" parent. */
  function LastRootId(nodes: seq<Node>): (r: Option<Id>)
    ensures r.Some? ==> r.value in Ids(nodes)
    decreases |nodes|
  {
    if nodes == [] then None
    else
      var n := |nodes| - 1;
      assert nodes == nodes[..n] + [nodes[n]];
      IdsSnoc(nodes[..n], nodes[n]);
      if IsRoot(nodes[n].core) then Some(nodes[n].core.id) else LastRootId(nodes[..n])
  }

  /** LastRootId names a root record after which no root follows, and is None exactly when the
      list holds no root. */
  lemma {:induction false} LastRootIdSpec(nodes: seq<Node>)
    ensures LastRootId(nodes).None? <==> forall i :: 0 <= i < |nodes| ==> !IsRoot(nodes[i].core)
    ensures LastRootId(nodes).Some? ==> LastRootAt(nodes, LastRootId(nodes).value)
    decreases |nodes|
  {
    if nodes != [] {
      var n := |nodes| - 1;
      var init := nodes[..n];
      LastRootIdSpec(init);
      assert forall i :: 0 <= i < n ==> init[i] == nodes[i];
      if !IsRoot(nodes[n].core) && LastRootId(init).Some? {
        LastRootAtSnoc(nodes, LastRootId(init).value);
      }
    }
  }

  /** Some root record of `nodes` has id `id`, and no root record follows it. */
  ghost predicate LastRootAt(nodes: seq<Node>, id: Id) {
    exists i :: 0 <= i < |nodes| && IsRoot(nodes[i].core) && nodes[i].core.id == id &&
                forall j :: i < j < |nodes| ==> !IsRoot(nodes[j].core)
  }

  /** A last root stays the last root when a non-root record follows it. */
  lemma LastRootAtSnoc(nodes: seq<Node>, id: Id)
    requires |nodes| > 0 && !IsRoot(nodes[|nodes| - 1].core)
    requires LastRootAt(nodes[..|nodes| - 1], id)
    ensures LastRootAt(nodes, id)
  {
    var init := nodes[..|nodes| - 1];
    var i :| 0 <= i < |init| && IsRoot(init[i].core) && init[i].core.id == id &&
             forall j :: i < j < |init| ==> !IsRoot(init[j].core);
    assert nodes[i] == init[i];
    forall j | i < j < |nodes| ensures !IsRoot(nodes[j].core) {
      if j < |init| {
        assert nodes[j] == init[j];
      }
    }
    assert IsRoot(nodes[i].core) && nodes[i].core.id == id;
  }

  /** The value at the root of buildAncestorTreeFromNodes(nodes), or its error. */
  function AncestorOutcome(byType: map<TypeName, ErasedMapper>, t: TypeName, nodes: seq<Node>): Result<Payload> {
    match Stage(byType, t, nodes)
    case Err(e) => Err(e)
    case Ok(vals) =>
      match LastRootId(nodes)
      case None => Err(NotFound)
      case Some(id) => Ok(vals[LastIndexOf(nodes, id)])
  }

  /** Distinct ids have distinct entries. */
  ghost predicate Injective(byID: map<Id, TypedTreeNode>) {
    forall p, q :: p in byID && q in byID && p != q ==> byID[p] != byID[q]
  }

  /** `byID` after the first loop: one entry per id, holding the value of the id's last record. */
  ghost predicate Indexed(byID: map<Id, TypedTreeNode>, nodes: seq<Node>, vals: seq<Payload>) {
    && |vals| == |nodes|
    && byID.Keys == Ids(nodes)
    && (forall p :: p in byID ==> byID[p].node == vals[LastIndexOf(nodes, p)])
    && Injective(byID)
  }

  /** Storing a new entry for one more record keeps `byID` indexed by the longer list. */
  lemma IndexedSnoc(byID: map<Id, TypedTreeNode>, prefix: seq<Node>, vals: seq<Payload>, n: Node, entry: TypedTreeNode)
    requires Indexed(byID, prefix, vals)
    requires forall p :: p in byID ==> byID[p] != entry
    ensures Indexed(byID[n.core.id := entry], prefix + [n], vals + [entry.node])
  {
    var byID' := byID[n.core.id := entry];
    IdsSnoc(prefix, n);
    forall p | p in byID' ensures byID'[p].node == (vals + [entry.node])[LastIndexOf(prefix + [n], p)] {
      LastIndexOfSnoc(prefix, n, p);
    }
    InjectiveSnoc(byID, n.core.id, entry);
  }

  /** The last position of an id in a list one record longer: the new record's, or as before. */
  lemma LastIndexOfSnoc(prefix: seq<Node>, n: Node, p: Id)
    requires p in Ids(prefix) || p == n.core.id
    ensures p in Ids(prefix + [n])
    ensures p == n.core.id ==> LastIndexOf(prefix + [n], p) == |prefix|
    ensures p != n.core.id ==> LastIndexOf(prefix + [n], p) == LastIndexOf(prefix, p)
  {
    IdsSnoc(prefix, n);
    AppendPrefix(prefix, [n]);
  }

  /** Storing an entry not already held keeps the entries distinct. */
  lemma InjectiveSnoc(byID: map<Id, TypedTreeNode>, id: Id, entry: TypedTreeNode)
    requires Injective(byID)
    requires forall p :: p in byID ==> byID[p] != entry
    ensures Injective(byID[id := entry])
  {
  }

  /** `byID` after the second loop: every entry's children are the entries of its child ids. */
  ghost predicate Linked(byID: map<Id, TypedTreeNode>, nodes: seq<Node>, vals: seq<Payload>)
    reads byID.Values
  {
    && Indexed(byID, nodes, vals)
    && forall p :: p in byID ==> byID[p].children == ChildObjects(byID, ChildIds(nodes, p))
  }

  /** The first loop shared by both builders: maps every record and stores a fresh entry under
      its id, stopping at the first mapping error. */
  method IndexByID(m: ErasedMapper, t: TypeName, nodes: seq<Node>) returns (r: Outcome, byID: map<Id, TypedTreeNode>)
    ensures Traverse(nodes, Mapped(m, t)).Err? ==> r == Fail(Traverse(nodes, Mapped(m, t)).error)
    ensures Traverse(nodes, Mapped(m, t)).Ok? ==> r == Pass && Indexed(byID, nodes, Traverse(nodes, Mapped(m, t)).value)
    ensures forall p :: p in byID ==> fresh(byID[p]) && byID[p].children == []
  {
    byID := map[];
    ghost var vals: seq<Payload> := [];
    var i := 0;
    while i < |nodes|
      invariant 0 <= i <= |nodes|
      invariant Traverse(nodes[..i], Mapped(m, t)) == Ok(vals)
      invariant Indexed(byID, nodes[..i], vals)
      invariant forall p :: p in byID ==> fresh(byID[p]) && byID[p].children == []
    {
      var n := nodes[i];
      SliceSnoc(nodes, i);
      TraverseSnoc(nodes[..i], n, Mapped(m, t));
      var v := m.FromNode(n);
      if v.Err? {
        TraversePrefixError(nodes, i + 1, Mapped(m, t));
        r := Fail(v.error);
        return;
      }
      if v.value.typ != t {
        TraversePrefixError(nodes, i + 1, Mapped(m, t));
        r := Fail(UnexpectedType(t, v.value.typ));
        return;
      }
      var entry := new TypedTreeNode(v.value.payload);
      IndexedSnoc(byID, nodes[..i], vals, n, entry);
      byID := byID[n.core.id := entry];
      vals := vals + [v.value.payload];
      i := i + 1;
    }
    assert nodes[..i] == nodes;
    r := Pass;
  }

  /** A root record, skipped by `continue`, adds no child link. */
  lemma KeepChildren(byID: map<Id, TypedTreeNode>, prefix: seq<Node>, n: Node)
    requires IsRoot(n.core)
    ensures forall p :: ChildIds(prefix + [n], p) == ChildIds(prefix, p)
  {
    forall p ensures ChildIds(prefix + [n], p) == ChildIds(prefix, p) {
      ChildIdsSnoc(prefix, n, p);
    }
  }

  /** The tail of the second loop's body in both builders: a record with a nil or "" parent
      is skipped by `continue`; any other is attached to its parent. */
  method LinkRecord(byID: map<Id, TypedTreeNode>, ghost prefix: seq<Node>, n: Node)
    requires Ids(prefix) + {n.core.id} <= byID.Keys
    requires Injective(byID)
    requires forall p :: p in byID ==> byID[p].children == ChildObjects(byID, ChildIds(prefix, p))
    modifies byID.Values
    ensures forall p :: p in byID ==> byID[p].children == ChildObjects(byID, ChildIds(prefix + [n], p))
  {
    if IsRoot(n.core) {
      KeepChildren(byID, prefix, n);
      return;
    }
    AttachToParent(byID, prefix, n);
  }

  /** The body of the second loop for a record with a parent id: `parent := byID[parentId]`,
      and when that entry exists the record's entry is appended to its children. */
  method AttachToParent(byID: map<Id, TypedTreeNode>, ghost prefix: seq<Node>, n: Node)
    requires !IsRoot(n.core)
    requires Ids(prefix) + {n.core.id} <= byID.Keys
    requires Injective(byID)
    requires forall p :: p in byID ==> byID[p].children == ChildObjects(byID, ChildIds(prefix, p))
    modifies byID.Values
    ensures forall p :: p in byID ==> byID[p].children == ChildObjects(byID, ChildIds(prefix + [n], p))
  {
    IdsSnoc(prefix, n);
    var cur := byID[n.core.id];
    var parentId := n.core.parentId.value;
    if parentId in byID {
      var parent := byID[parentId];
      parent.children := parent.children + [cur];
    }
    forall p | p in byID ensures byID[p].children == ChildObjects(byID, ChildIds(prefix + [n], p)) {
      ChildIdsSnoc(prefix, n, p);
      assert old(byID[p].children) == ChildObjects(byID, ChildIds(prefix, p));
      if p == parentId {
        assert ParentKey(n.core) == Some(p);
        ChildObjectsSnoc(byID, ChildIds(prefix, p), n.core.id);
        assert byID[p].children == old(byID[p].children) + [byID[n.core.id]];
      } else {
        assert ParentKey(n.core) != Some(p);
        assert ChildIds(prefix, p) + [] == ChildIds(prefix, p);
        assert parentId in byID ==> byID[p] != byID[parentId];
        assert byID[p].children == old(byID[p].children);
      }
    }
  }

  /** The second loop of buildTreeFromNodes: links every record under its parent and keeps the
      entry whose id is `rootID`. */
  method LinkUnderRoot(byID: map<Id, TypedTreeNode>, nodes: seq<Node>, rootID: Id) returns (root: TypedTreeNode?)
    requires byID.Keys == Ids(nodes) && Injective(byID)
    requires forall p :: p in byID ==> byID[p].children == []
    modifies byID.Values
    ensures forall p :: p in byID ==> byID[p].children == ChildObjects(byID, ChildIds(nodes, p))
    ensures root != null <==> rootID in Ids(nodes)
    ensures root != null ==> rootID in byID && root == byID[rootID]
  {
    root := null;
    var i := 0;
    assert nodes[..0] == [];
    while i < |nodes|
      invariant 0 <= i <= |nodes|
      invariant Ids(nodes[..i]) <= byID.Keys
      invariant forall p :: p in byID ==> byID[p].children == ChildObjects(byID, ChildIds(nodes[..i], p))
      invariant root != null <==> rootID in Ids(nodes[..i])
      invariant root != null ==> rootID in byID && root == byID[rootID]
    {
      root := LinkStep(byID, nodes, i, rootID, root);
      i := i + 1;
    }
    assert nodes[..i] == nodes;
  }

  /** One pass of that loop: `cur := byID[n.Core.Id]`, kept as the root when its id is
      `rootID`, then linked under its parent. */
  method LinkStep(byID: map<Id, TypedTreeNode>, nodes: seq<Node>, i: nat, rootID: Id, root: TypedTreeNode?)
    returns (root': TypedTreeNode?)
    requires i < |nodes| && byID.Keys == Ids(nodes) && Injective(byID)
    requires Ids(nodes[..i]) <= byID.Keys
    requires forall p :: p in byID ==> byID[p].children == ChildObjects(byID, ChildIds(nodes[..i], p))
    requires root != null <==> rootID in Ids(nodes[..i])
    requires root != null ==> rootID in byID && root == byID[rootID]
    modifies byID.Values
    ensures Ids(nodes[..i + 1]) <= byID.Keys
    ensures forall p :: p in byID ==> byID[p].children == ChildObjects(byID, ChildIds(nodes[..i + 1], p))
    ensures root' != null <==> rootID in Ids(nodes[..i + 1])
    ensures root' != null ==> rootID in byID && root' == byID[rootID]
  {
    var n := nodes[i];
    var cur := byID[n.core.id];
    root' := root;
    if n.core.id == rootID {
      root' := cur;
    }
    IdsSnoc(nodes[..i], n);
    SliceSnoc(nodes, i);
    LinkRecord(byID, nodes[..i], n);
  }

  /** buildTreeFromNodes: NotFound on an empty list, the mapper's errors, then every record is
      appended to its parent's children and the entry with id `rootID` is returned (NotFound
      when no record has that id). */
  method BuildTreeFromNodes(reg: MapperRegistry, t: TypeName, nodes: seq<Node>, rootID: Id)
    returns (r: Result<TypedTreeNode>, byID: map<Id, TypedTreeNode>)
    requires reg.Valid()
    ensures |nodes| == 0 ==> r == Err(NotFound)
    ensures DescendantOutcome(reg.byType, t, nodes, rootID).Err? ==> r == Err(DescendantOutcome(reg.byType, t, nodes, rootID).error)
    ensures DescendantOutcome(reg.byType, t, nodes, rootID).Ok? ==>
              r.Ok? && r.value.node == DescendantOutcome(reg.byType, t, nodes, rootID).value
    ensures Stage(reg.byType, t, nodes).Ok? ==> Linked(byID, nodes, Stage(reg.byType, t, nodes).value)
    ensures r.Ok? ==> rootID in byID && r.value == byID[rootID]
    ensures forall p :: p in byID ==> fresh(byID[p])
  {
    byID := map[];
    if |nodes| == 0 {
      return Err(NotFound), byID;
    }
    var mapper := reg.ForType(t);
    if mapper.Err? {
      return Err(mapper.error), byID;
    }
    var indexed;
    indexed, byID := IndexByID(mapper.value, t, nodes);
    if indexed.Fail? {
      return Err(indexed.error), byID;
    }
    assert Stage(reg.byType, t, nodes) == Traverse(nodes, Mapped(mapper.value, t));
    var root := LinkUnderRoot(byID, nodes, rootID);
    if root == null {
      r := Err(NotFound);
    } else {
      r := Ok(root);
    }
  }

  /** The second loop of buildAncestorTreeFromNodes: links every record under its parent and
      keeps the entry of the last record with a nil or "" parent. */
  method LinkUnderLastRoot(byID: map<Id, TypedTreeNode>, nodes: seq<Node>) returns (root: TypedTreeNode?)
    requires byID.Keys == Ids(nodes) && Injective(byID)
    requires forall p :: p in byID ==> byID[p].children == []
    modifies byID.Values
    ensures forall p :: p in byID ==> byID[p].children == ChildObjects(byID, ChildIds(nodes, p))
    ensures root != null <==> LastRootId(nodes).Some?
    ensures root != null ==> LastRootId(nodes).value in byID && root == byID[LastRootId(nodes).value]
  {
    root := null;
    var i := 0;
    assert nodes[..0] == [];
    while i < |nodes|
      invariant 0 <= i <= |nodes|
      invariant Ids(nodes[..i]) <= byID.Keys
      invariant forall p :: p in byID ==> byID[p].children == ChildObjects(byID, ChildIds(nodes[..i], p))
      invariant root != null <==> LastRootId(nodes[..i]).Some?
      invariant root != null ==> LastRootId(nodes[..i]).value in byID && root == byID[LastRootId(nodes[..i]).value]
    {
      root := LastRootStep(byID, nodes, i, root);
      i := i + 1;
    }
    assert nodes[..i] == nodes;
  }

  /** One pass of that loop: `cur := byID[n.Core.Id]`, kept as the root when its parent is nil
      or "", then linked under its parent. */
  method LastRootStep(byID: map<Id, TypedTreeNode>, nodes: seq<Node>, i: nat, root: TypedTreeNode?)
    returns (root': TypedTreeNode?)
    requires i < |nodes| && byID.Keys == Ids(nodes) && Injective(byID)
    requires Ids(nodes[..i]) <= byID.Keys
    requires forall p :: p in byID ==> byID[p].children == ChildObjects(byID, ChildIds(nodes[..i], p))
    requires root != null <==> LastRootId(nodes[..i]).Some?
    requires root != null ==> LastRootId(nodes[..i]).value in byID && root == byID[LastRootId(nodes[..i]).value]
    modifies byID.Values
    ensures Ids(nodes[..i + 1]) <= byID.Keys
    ensures forall p :: p in byID ==> byID[p].children == ChildObjects(byID, ChildIds(nodes[..i + 1], p))
    ensures root' != null <==> LastRootId(nodes[..i + 1]).Some?
    ensures root' != null ==> LastRootId(nodes[..i + 1]).value in byID && root' == byID[LastRootId(nodes[..i + 1]).value]
  {
    var n := nodes[i];
    var cur := byID[n.core.id];
    IdsSnoc(nodes[..i], n);
    SliceSnoc(nodes, i);
    AppendPrefix(nodes[..i], [n]);
    root' := root;
    if IsRoot(n.core) {
      root' := cur;
    }
    LinkRecord(byID, nodes[..i], n);
  }

  /** buildAncestorTreeFromNodes: as buildTreeFromNodes, but the entry returned is that of the
      last record with a nil or "" parent (NotFound when there is none). */
  method BuildAncestorTreeFromNodes(reg: MapperRegistry, t: TypeName, nodes: seq<Node>)
    returns (r: Result<TypedTreeNode>, byID: map<Id, TypedTreeNode>)
    requires reg.Valid()
    ensures |nodes| == 0 ==> r == Err(NotFound)
    ensures AncestorOutcome(reg.byType, t, nodes).Err? ==> r == Err(AncestorOutcome(reg.byType, t, nodes).error)
    ensures AncestorOutcome(reg.byType, t, nodes).Ok? ==>
              r.Ok? && r.value.node == AncestorOutcome(reg.byType, t, nodes).value
    ensures Stage(reg.byType, t, nodes).Ok? ==> Linked(byID, nodes, Stage(reg.byType, t, nodes).value)
    ensures r.Ok? ==> LastRootId(nodes).Some? && r.value == byID[LastRootId(nodes).value]
    ensures forall p :: p in byID ==> fresh(byID[p])
  {
    byID := map[];
    if |nodes| == 0 {
      return Err(NotFound), byID;
    }
    var mapper := reg.ForType(t);
    if mapper.Err? {
      return Err(mapper.error), byID;
    }
    var indexed;
    indexed, byID := IndexByID(mapper.value, t, nodes);
    if indexed.Fail? {
      return Err(indexed.error), byID;
    }
    assert Stage(reg.byType, t, nodes) == Traverse(nodes, Mapped(mapper.value, t));
    var root := LinkUnderLastRoot(byID, nodes);
    if root == null {
      r := Err(NotFound);
    } else {
      r := Ok(root);
    }
  }

  /** Every id in a child list is the id of an input record. */
  lemma {:induction false} ChildIdsWithin(nodes: seq<Node>, q: Id)
    ensures forall j :: 0 <= j < |ChildIds(nodes, q)| ==> ChildIds(nodes, q)[j] in Ids(nodes)
    decreases |nodes|
  {
    if nodes != [] {
      var n := |nodes| - 1;
      ChildIdsWithin(nodes[..n], q);
      assert nodes == nodes[..n] + [nodes[n]];
      IdsSnoc(nodes[..n], nodes[n]);
    }
  }

  /** Child lists keep input order: the children contributed by a later part of the input
      follow those of an earlier part. */
  lemma {:induction false} ChildIdsAppend(a: seq<Node>, b: seq<Node>, q: Id)
    ensures ChildIds(a + b, q) == ChildIds(a, q) + ChildIds(b, q)
    decreases |b|
  {
    if b == [] {
      assert a + b == a;
    } else {
      var b' := b[..|b| - 1];
      assert (a + b)[..|a + b| - 1] == a + b';
      ChildIdsAppend(a, b', q);
    }
  }

  /** An id no record carries is in no child list. */
  lemma AbsentNotChild(nodes: seq<Node>, q: Id, x: Id)
    requires forall k :: 0 <= k < |nodes| ==> nodes[k].core.id != x
    ensures x !in ChildIds(nodes, q)
  {
    ChildIdsWithin(nodes, q);
    assert x !in Ids(nodes);
  }

  /** No two records share an id. */
  ghost predicate UniqueIds(nodes: seq<Node>) {
    forall i, j :: 0 <= i < j < |nodes| ==> nodes[i].core.id != nodes[j].core.id
  }

  /** With unique ids, a record occurs exactly once in the child list of the parent its parent id
      names, and in no other child list. */
  lemma {:induction false} ChildIdsOccurrences(nodes: seq<Node>, q: Id, i: nat)
    requires UniqueIds(nodes) && i < |nodes|
    ensures multiset(ChildIds(nodes, q))[nodes[i].core.id] == if ParentKey(nodes[i].core) == Some(q) then 1 else 0
    decreases |nodes|
  {
    var n := |nodes| - 1;
    var init := nodes[..n];
    var x := nodes[i].core.id;
    ChildIdsCount(nodes, q, x);
    if i == n {
      LastNotEarlier(nodes, q);
    } else {
      UniqueInit(nodes, i);
      ChildIdsOccurrences(init, q, i);
    }
  }

  /** How often `x` occurs in a child list: as often as before the last record, and once more
      when the last record is a child of `q` with id `x`. */
  lemma ChildIdsCount(nodes: seq<Node>, q: Id, x: Id)
    requires nodes != []
    ensures multiset(ChildIds(nodes, q))[x] ==
              multiset(ChildIds(nodes[..|nodes| - 1], q))[x] +
              (if ParentKey(nodes[|nodes| - 1].core) == Some(q) && nodes[|nodes| - 1].core.id == x then 1 else 0)
  {
    ChildIdsLast(nodes, q);
  }

  /** Dropping the last record keeps ids unique, and an earlier record's id is not the last's. */
  lemma UniqueInit(nodes: seq<Node>, i: nat)
    requires UniqueIds(nodes) && i < |nodes| - 1
    ensures UniqueIds(nodes[..|nodes| - 1]) && nodes[..|nodes| - 1][i] == nodes[i]
    ensures nodes[i].core.id != nodes[|nodes| - 1].core.id
  {
    var init := nodes[..|nodes| - 1];
    assert forall k :: 0 <= k < |init| ==> init[k] == nodes[k];
  }

  /** The multiset of child ids grows by the last record's id when it is a child of `q`. */
  lemma ChildIdsLast(nodes: seq<Node>, q: Id)
    requires nodes != []
    ensures multiset(ChildIds(nodes, q)) ==
              multiset(ChildIds(nodes[..|nodes| - 1], q)) +
              multiset(if ParentKey(nodes[|nodes| - 1].core) == Some(q) then [nodes[|nodes| - 1].core.id] else [])
  {
  }

  /** With unique ids, the last record is not among the child ids of the records before it. */
  lemma LastNotEarlier(nodes: seq<Node>, q: Id)
    requires UniqueIds(nodes) && nodes != []
    ensures nodes[|nodes| - 1].core.id !in ChildIds(nodes[..|nodes| - 1], q)
  {
    var n := |nodes| - 1;
    var init := nodes[..n];
    forall k | 0 <= k < n ensures init[k].core.id != nodes[n].core.id {
      assert init[k] == nodes[k];
    }
    AbsentNotChild(init, q, nodes[n].core.id);
  }

  /** A record with a nil or "" parent is in no child list, and with unique ids a record whose
      parent is not in the input is attached to no entry. */
  lemma NeverAttached(nodes: seq<Node>, q: Id, i: nat)
    requires UniqueIds(nodes) && i < |nodes|
    ensures IsRoot(nodes[i].core) ==> nodes[i].core.id !in ChildIds(nodes, q)
    ensures ParentKey(nodes[i].core).Some? && ParentKey(nodes[i].core).value !in Ids(nodes) && q in Ids(nodes) ==>
              nodes[i].core.id !in ChildIds(nodes, q)
  {
    ChildIdsOccurrences(nodes, q, i);
  }

  /** A tree's outcome and the value at its root agree with a specification outcome. */
  predicate Agrees(r: Result<TypedTreeNode>, s: Result<Payload>) {
    && (r.Err? <==> s.Err?)
    && (r.Err? ==> r.error == s.error)
    && (r.Ok? ==> r.value.node == s.value)
  }

  /** A list of trees agrees with a specification outcome: same error, or one tree per value, in order. */
  predicate AgreesAll(r: Result<seq<TypedTreeNode>>, s: Result<seq<Payload>>) {
    && (r.Err? <==> s.Err?)
    && (r.Err? ==> r.error == s.error)
    && (r.Ok? ==> |r.value| == |s.value| && forall j :: 0 <= j < |r.value| ==> r.value[j].node == s.value[j])
  }

  /** The trees built so far have the mapped values at their roots. */
  predicate SameRoots(out: seq<TypedTreeNode>, vals: seq<Payload>) {
    |out| == |vals| && forall j :: 0 <= j < |out| ==> out[j].node == vals[j]
  }

  lemma SameRootsSnoc(out: seq<TypedTreeNode>, vals: seq<Payload>, x: TypedTreeNode)
    requires SameRoots(out, vals)
    ensures SameRoots(out + [x], vals + [x.node])
  {
  }

  /** The root value DescendantTreeAs(rootID) yields, given the descendant fetch. */
  function DescendantTreeOf(byType: map<TypeName, ErasedMapper>, t: TypeName, fetch: Id -> Result<seq<Node>>, rootID: Id): Result<Payload> {
    match fetch(rootID)
    case Err(e) => Err(e)
    case Ok(nodes) => DescendantOutcome(byType, t, nodes, rootID)
  }

  function DescendantOf(byType: map<TypeName, ErasedMapper>, t: TypeName, fetch: Id -> Result<seq<Node>>): Node -> Result<Payload> {
    (n: Node) => DescendantTreeOf(byType, t, fetch, n.core.id)
  }

  /** The root value AncestorTreeAs(childID) yields, given the ancestor fetch. */
  function AncestorTreeOf(byType: map<TypeName, ErasedMapper>, t: TypeName, fetch: Id -> Result<seq<Node>>, childID: Id): Result<Payload> {
    match fetch(childID)
    case Err(e) => Err(e)
    case Ok(nodes) => AncestorOutcome(byType, t, nodes)
  }

  function AncestorOf(byType: map<TypeName, ErasedMapper>, t: TypeName, fetch: Id -> Result<seq<Node>>): Node -> Result<Payload> {
    (n: Node) => AncestorTreeOf(byType, t, fetch, n.core.id)
  }

  /** The records DescendantsAs builds a tree for: all of them, or only the roots. */
  function Selected(onlyRoots: bool): Node -> bool {
    (n: Node) => !onlyRoots || IsRoot(n.core)
  }

  /** DescendantsAs(false) selects every fetched record; DescendantsAs(true) exactly the records
      with a nil or "" parent; both keep input order. */
  lemma DescendantsSelection(nodes: seq<Node>)
    ensures Filter(nodes, Selected(false)) == nodes
    ensures forall x :: x in Filter(nodes, Selected(true)) <==> x in nodes && IsRoot(x.core)
  {
    FilterAll(nodes, Selected(false));
    forall x | x in nodes && IsRoot(x.core) ensures x in Filter(nodes, Selected(true)) {
      var i :| 0 <= i < |nodes| && nodes[i] == x;
    }
    forall x | x in Filter(nodes, Selected(true)) ensures x in nodes && IsRoot(x.core) {
      var i :| 0 <= i < |Filter(nodes, Selected(true))| && Filter(nodes, Selected(true))[i] == x;
    }
  }

  /** `tree` is the root of the descendant tree of `rootID`: the records `fetch` returned are
      mapped, linked under their parents in `byID`, and `tree` is the entry of `rootID`. */
  ghost predicate DescendantTree(byType: map<TypeName, ErasedMapper>, t: TypeName, fetch: Id -> Result<seq<Node>>,
                                 rootID: Id, tree: TypedTreeNode, byID: map<Id, TypedTreeNode>)
    reads byID.Values
  {
    && fetch(rootID).Ok?
    && Stage(byType, t, fetch(rootID).value).Ok?
    && Linked(byID, fetch(rootID).value, Stage(byType, t, fetch(rootID).value).value)
    && rootID in byID && tree == byID[rootID]
  }

  /** `tree` is the root of the ancestor tree of `childID`: the records `fetch` returned are
      mapped, linked under their parents in `byID`, and `tree` is the entry of the last of them
      with a nil or "" parent. */
  ghost predicate AncestorTree(byType: map<TypeName, ErasedMapper>, t: TypeName, fetch: Id -> Result<seq<Node>>,
                               childID: Id, tree: TypedTreeNode, byID: map<Id, TypedTreeNode>)
    reads byID.Values
  {
    && fetch(childID).Ok?
    && Stage(byType, t, fetch(childID).value).Ok?
    && Linked(byID, fetch(childID).value, Stage(byType, t, fetch(childID).value).value)
    && LastRootId(fetch(childID).value).Some?
    && LastRootId(fetch(childID).value).value in byID && tree == byID[LastRootId(fetch(childID).value).value]
  }

  /** The objects of every id table in `tables`. */
  ghost function Entries(tables: seq<map<Id, TypedTreeNode>>): set<TypedTreeNode> {
    set j, o | 0 <= j < |tables| && o in tables[j].Values :: o
  }

  /** `out[j]` is the descendant tree of `picked[j]`, built in `tables[j]`, for every `j`. */
  ghost predicate DescendantTrees(byType: map<TypeName, ErasedMapper>, t: TypeName, fetch: Id -> Result<seq<Node>>,
                                  picked: seq<Node>, out: seq<TypedTreeNode>, tables: seq<map<Id, TypedTreeNode>>)
    reads Entries(tables)
  {
    && |tables| == |out| == |picked|
    && forall j :: 0 <= j < |out| ==> DescendantTree(byType, t, fetch, picked[j].core.id, out[j], tables[j])
  }

  lemma DescendantTreesSnoc(byType: map<TypeName, ErasedMapper>, t: TypeName, fetch: Id -> Result<seq<Node>>,
                            picked: seq<Node>, out: seq<TypedTreeNode>, tables: seq<map<Id, TypedTreeNode>>,
                            n: Node, tree: TypedTreeNode, byID: map<Id, TypedTreeNode>)
    requires DescendantTrees(byType, t, fetch, picked, out, tables)
    requires DescendantTree(byType, t, fetch, n.core.id, tree, byID)
    ensures DescendantTrees(byType, t, fetch, picked + [n], out + [tree], tables + [byID])
  {
  }

  /** `out[j]` is the ancestor tree of `nodes[j]`, built in `tables[j]`, for every `j`. */
  ghost predicate AncestorTrees(byType: map<TypeName, ErasedMapper>, t: TypeName, fetch: Id -> Result<seq<Node>>,
                                nodes: seq<Node>, out: seq<TypedTreeNode>, tables: seq<map<Id, TypedTreeNode>>)
    reads Entries(tables)
  {
    && |tables| == |out| == |nodes|
    && forall j :: 0 <= j < |out| ==> AncestorTree(byType, t, fetch, nodes[j].core.id, out[j], tables[j])
  }

  lemma AncestorTreesSnoc(byType: map<TypeName, ErasedMapper>, t: TypeName, fetch: Id -> Result<seq<Node>>,
                          nodes: seq<Node>, out: seq<TypedTreeNode>, tables: seq<map<Id, TypedTreeNode>>,
                          n: Node, tree: TypedTreeNode, byID: map<Id, TypedTreeNode>)
    requires AncestorTrees(byType, t, fetch, nodes, out, tables)
    requires AncestorTree(byType, t, fetch, n.core.id, tree, byID)
    ensures AncestorTrees(byType, t, fetch, nodes + [n], out + [tree], tables + [byID])
  {
  }

  /** DescendantTreeAs: fetches the descendants of `rootID` and builds their tree. `byID` is the
      builder's id table, which holds every node of the tree. */
  method DescendantTreeAs(reg: MapperRegistry, t: TypeName, fetchDescendants: Id -> Result<seq<Node>>, rootID: Id)
    returns (r: Result<TypedTreeNode>, ghost byID: map<Id, TypedTreeNode>)
    requires reg.Valid()
    ensures Agrees(r, DescendantTreeOf(reg.byType, t, fetchDescendants, rootID))
    ensures r.Ok? ==> DescendantTree(reg.byType, t, fetchDescendants, rootID, r.value, byID)
  {
    byID := map[];
    var nodes := fetchDescendants(rootID);
    if nodes.Err? {
      return Err(nodes.error), byID;
    }
    r, byID := BuildTreeFromNodes(reg, t, nodes.value, rootID);
  }

  /** AncestorTreeAs: fetches the ancestors of `childID` and builds their tree. */
  method AncestorTreeAs(reg: MapperRegistry, t: TypeName, fetchAncestors: Id -> Result<seq<Node>>, childID: Id)
    returns (r: Result<TypedTreeNode>, ghost byID: map<Id, TypedTreeNode>)
    requires reg.Valid()
    ensures Agrees(r, AncestorTreeOf(reg.byType, t, fetchAncestors, childID))
    ensures r.Ok? ==> AncestorTree(reg.byType, t, fetchAncestors, childID, r.value, byID)
  {
    byID := map[];
    var nodes := fetchAncestors(childID);
    if nodes.Err? {
      return Err(nodes.error), byID;
    }
    r, byID := BuildAncestorTreeFromNodes(reg, t, nodes.value);
  }

  /** The state of the DescendantsAs loop after the first `i` fetched records: `picked` are the
      selected ones, and `out` holds one tree per picked record, built in `tables`, whose root
      values `vals` are what the specification yields for them. */
  ghost predicate DescendantsSoFar(byType: map<TypeName, ErasedMapper>, t: TypeName, fetch: Id -> Result<seq<Node>>,
                                   onlyRoots: bool, nodes: seq<Node>, i: nat, out: seq<TypedTreeNode>,
                                   vals: seq<Payload>, picked: seq<Node>, tables: seq<map<Id, TypedTreeNode>>)
    reads Entries(tables)
  {
    && i <= |nodes|
    && picked == Filter(nodes[..i], Selected(onlyRoots))
    && Traverse(picked, DescendantOf(byType, t, fetch)) == Ok(vals)
    && SameRoots(out, vals)
    && DescendantTrees(byType, t, fetch, picked, out, tables)
  }

  /** One pass of the DescendantsAs loop: skips record `i` when it is not selected, and otherwise
      builds its tree, stopping with the error the specification yields. */
  method DescendantStep(reg: MapperRegistry, t: TypeName, fetchDescendants: Id -> Result<seq<Node>>, onlyRoots: bool,
                        nodes: seq<Node>, i: nat, out: seq<TypedTreeNode>, ghost vals: seq<Payload>,
                        ghost picked: seq<Node>, ghost tables: seq<map<Id, TypedTreeNode>>)
    returns (failed: Option<Error>, out': seq<TypedTreeNode>, ghost vals': seq<Payload>,
             ghost picked': seq<Node>, ghost tables': seq<map<Id, TypedTreeNode>>)
    requires reg.Valid() && i < |nodes|
    requires DescendantsSoFar(reg.byType, t, fetchDescendants, onlyRoots, nodes, i, out, vals, picked, tables)
    ensures failed.Some? ==>
              Traverse(Filter(nodes, Selected(onlyRoots)), DescendantOf(reg.byType, t, fetchDescendants)) == Err(failed.value)
    ensures failed.None? ==>
              DescendantsSoFar(reg.byType, t, fetchDescendants, onlyRoots, nodes, i + 1, out', vals', picked', tables')
  {
    var n := nodes[i];
    DescendantsNext(DescendantOf(reg.byType, t, fetchDescendants), Selected(onlyRoots), nodes, i, vals);
    failed, out', vals', picked', tables' := None, out, vals, picked, tables;
    if onlyRoots && !IsRoot(n.core) {
      return;
    }
    var tree, byID := DescendantTreeAs(reg, t, fetchDescendants, n.core.id);
    if tree.Err? {
      failed := Some(tree.error);
      return;
    }
    DescendantsAdd(reg.byType, t, fetchDescendants, onlyRoots, nodes, i, out, vals, picked, tables, tree.value, byID);
    out' := out + [tree.value];
    vals' := vals + [tree.value.node];
    tables' := tables + [byID];
    picked' := picked + [n];
  }

  /** A selected record whose descendant tree was built extends the loop state by that tree. */
  lemma DescendantsAdd(byType: map<TypeName, ErasedMapper>, t: TypeName, fetch: Id -> Result<seq<Node>>,
                       onlyRoots: bool, nodes: seq<Node>, i: nat, out: seq<TypedTreeNode>,
                       vals: seq<Payload>, picked: seq<Node>, tables: seq<map<Id, TypedTreeNode>>,
                       tree: TypedTreeNode, byID: map<Id, TypedTreeNode>)
    requires i < |nodes| && Selected(onlyRoots)(nodes[i])
    requires DescendantsSoFar(byType, t, fetch, onlyRoots, nodes, i, out, vals, picked, tables)
    requires Agrees(Ok(tree), DescendantTreeOf(byType, t, fetch, nodes[i].core.id))
    requires DescendantTree(byType, t, fetch, nodes[i].core.id, tree, byID)
    ensures DescendantsSoFar(byType, t, fetch, onlyRoots, nodes, i + 1, out + [tree], vals + [tree.node],
                             picked + [nodes[i]], tables + [byID])
  {
    DescendantsNext(DescendantOf(byType, t, fetch), Selected(onlyRoots), nodes, i, vals);
    SameRootsSnoc(out, vals, tree);
    DescendantTreesSnoc(byType, t, fetch, picked, out, tables, nodes[i], tree, byID);
  }

  /** What record `i` adds to the selection and to its traversal, and that an error there is
      the error of the whole traversal. */
  lemma DescendantsNext(f: Node -> Result<Payload>, p: Node -> bool, nodes: seq<Node>, i: nat, vals: seq<Payload>)
    requires i < |nodes| && Traverse(Filter(nodes[..i], p), f) == Ok(vals)
    ensures Filter(nodes[..i + 1], p) == if p(nodes[i]) then Filter(nodes[..i], p) + [nodes[i]] else Filter(nodes[..i], p)
    ensures Traverse(Filter(nodes[..i + 1], p), f) ==
              if !p(nodes[i]) then Ok(vals)
              else if f(nodes[i]).Err? then Err(f(nodes[i]).error)
              else Ok(vals + [f(nodes[i]).value])
    ensures p(nodes[i]) && f(nodes[i]).Err? ==> Traverse(Filter(nodes, p), f) == Err(f(nodes[i]).error)
  {
    SliceSnoc(nodes, i);
    TraverseFilterSnoc(nodes[..i], nodes[i], p, f);
    FilterSnoc(nodes[..i], nodes[i], p);
    if p(nodes[i]) && f(nodes[i]).Err? {
      TraverseFilterStop(nodes, i + 1, p, f);
    }
  }

  /** DescendantsAs: one descendant tree per selected fetched record, in order, stopping at the
      first error. `fetched` is what fetchNodes returned. */
  method DescendantsAs(reg: MapperRegistry, t: TypeName, fetched: Result<seq<Node>>,
                       fetchDescendants: Id -> Result<seq<Node>>, onlyRoots: bool)
    returns (r: Result<seq<TypedTreeNode>>, ghost tables: seq<map<Id, TypedTreeNode>>)
    requires reg.Valid()
    ensures fetched.Err? ==> r == Err(fetched.error)
    ensures fetched.Ok? ==>
              AgreesAll(r, Traverse(Filter(fetched.value, Selected(onlyRoots)), DescendantOf(reg.byType, t, fetchDescendants)))
    ensures fetched.Ok? && r.Ok? ==>
              DescendantTrees(reg.byType, t, fetchDescendants, Filter(fetched.value, Selected(onlyRoots)), r.value, tables)
  {
    tables := [];
    if fetched.Err? {
      return Err(fetched.error), tables;
    }
    var failed, out;
    ghost var vals, picked;
    failed, out, vals, picked, tables := DescendantsLoop(reg, t, fetchDescendants, onlyRoots, fetched.value);
    if failed.Some? {
      return Err(failed.value), tables;
    }
    DescendantsDone(reg.byType, t, fetchDescendants, onlyRoots, fetched.value, out, vals, picked, tables);
    r := Ok(out);
  }

  /** The loop of DescendantsAs over the fetched records, stopping at the first error. */
  method DescendantsLoop(reg: MapperRegistry, t: TypeName, fetchDescendants: Id -> Result<seq<Node>>, onlyRoots: bool,
                         nodes: seq<Node>)
    returns (failed: Option<Error>, out: seq<TypedTreeNode>, ghost vals: seq<Payload>,
             ghost picked: seq<Node>, ghost tables: seq<map<Id, TypedTreeNode>>)
    requires reg.Valid()
    ensures failed.Some? ==>
              Traverse(Filter(nodes, Selected(onlyRoots)), DescendantOf(reg.byType, t, fetchDescendants)) == Err(failed.value)
    ensures failed.None? ==>
              DescendantsSoFar(reg.byType, t, fetchDescendants, onlyRoots, nodes, |nodes|, out, vals, picked, tables)
  {
    failed, out, vals, picked, tables := None, [], [], [], [];
    var i := 0;
    assert nodes[..0] == [];
    while i < |nodes|
      invariant 0 <= i <= |nodes|
      invariant DescendantsSoFar(reg.byType, t, fetchDescendants, onlyRoots, nodes, i, out, vals, picked, tables)
    {
      var stop;
      stop, out, vals, picked, tables := DescendantStep(reg, t, fetchDescendants, onlyRoots, nodes, i, out, vals, picked, tables);
      if stop.Some? {
        return stop, out, vals, picked, tables;
      }
      i := i + 1;
    }
  }

  /** When the DescendantsAs loop has seen every record, its trees are the specification's. */
  lemma DescendantsDone(byType: map<TypeName, ErasedMapper>, t: TypeName, fetch: Id -> Result<seq<Node>>,
                        onlyRoots: bool, nodes: seq<Node>, out: seq<TypedTreeNode>,
                        vals: seq<Payload>, picked: seq<Node>, tables: seq<map<Id, TypedTreeNode>>)
    requires DescendantsSoFar(byType, t, fetch, onlyRoots, nodes, |nodes|, out, vals, picked, tables)
    ensures AgreesAll(Ok(out), Traverse(Filter(nodes, Selected(onlyRoots)), DescendantOf(byType, t, fetch)))
    ensures DescendantTrees(byType, t, fetch, Filter(nodes, Selected(onlyRoots)), out, tables)
  {
    assert nodes[..|nodes|] == nodes;
  }

  /** The state of the AncestorsAs loop after the first `i` fetched records: `out` holds one
      tree per record, built in `tables`, whose root values `vals` are what the specification
      yields for them. */
  ghost predicate AncestorsSoFar(byType: map<TypeName, ErasedMapper>, t: TypeName, fetch: Id -> Result<seq<Node>>,
                                 nodes: seq<Node>, i: nat, out: seq<TypedTreeNode>, vals: seq<Payload>,
                                 tables: seq<map<Id, TypedTreeNode>>)
    reads Entries(tables)
  {
    && i <= |nodes|
    && Traverse(nodes[..i], AncestorOf(byType, t, fetch)) == Ok(vals)
    && SameRoots(out, vals)
    && AncestorTrees(byType, t, fetch, nodes[..i], out, tables)
  }

  /** One pass of the AncestorsAs loop: builds the tree of record `i`, stopping with the error
      the specification yields. */
  method AncestorStep(reg: MapperRegistry, t: TypeName, fetchAncestors: Id -> Result<seq<Node>>,
                      nodes: seq<Node>, i: nat, out: seq<TypedTreeNode>, ghost vals: seq<Payload>,
                      ghost tables: seq<map<Id, TypedTreeNode>>)
    returns (failed: Option<Error>, out': seq<TypedTreeNode>, ghost vals': seq<Payload>,
             ghost tables': seq<map<Id, TypedTreeNode>>)
    requires reg.Valid() && i < |nodes|
    requires AncestorsSoFar(reg.byType, t, fetchAncestors, nodes, i, out, vals, tables)
    ensures failed.Some? ==> Traverse(nodes, AncestorOf(reg.byType, t, fetchAncestors)) == Err(failed.value)
    ensures failed.None? ==> AncestorsSoFar(reg.byType, t, fetchAncestors, nodes, i + 1, out', vals', tables')
  {
    ghost var f := AncestorOf(reg.byType, t, fetchAncestors);
    var n := nodes[i];
    SliceSnoc(nodes, i);
    TraverseSnoc(nodes[..i], n, f);
    failed, out', vals', tables' := None, out, vals, tables;
    var tree, byID := AncestorTreeAs(reg, t, fetchAncestors, n.core.id);
    if tree.Err? {
      TraversePrefixError(nodes, i + 1, f);
      failed := Some(tree.error);
      return;
    }
    SameRootsSnoc(out, vals, tree.value);
    AncestorTreesSnoc(reg.byType, t, fetchAncestors, nodes[..i], out, tables, n, tree.value, byID);
    out' := out + [tree.value];
    vals' := vals + [tree.value.node];
    tables' := tables + [byID];
  }

  /** AncestorsAs: one ancestor tree per fetched record, in order, stopping at the first error. */
  method AncestorsAs(reg: MapperRegistry, t: TypeName, fetched: Result<seq<Node>>, fetchAncestors: Id -> Result<seq<Node>>)
    returns (r: Result<seq<TypedTreeNode>>, ghost tables: seq<map<Id, TypedTreeNode>>)
    requires reg.Valid()
    ensures fetched.Err? ==> r == Err(fetched.error)
    ensures fetched.Ok? ==> AgreesAll(r, Traverse(fetched.value, AncestorOf(reg.byType, t, fetchAncestors)))
    ensures fetched.Ok? && r.Ok? ==> AncestorTrees(reg.byType, t, fetchAncestors, fetched.value, r.value, tables)
  {
    tables := [];
    if fetched.Err? {
      return Err(fetched.error), tables;
    }
    var nodes := fetched.value;
    var out: seq<TypedTreeNode> := [];
    ghost var vals: seq<Payload> := [];
    var i := 0;
    assert nodes[..0] == [];
    while i < |nodes|
      invariant 0 <= i <= |nodes|
      invariant AncestorsSoFar(reg.byType, t, fetchAncestors, nodes, i, out, vals, tables)
    {
      var failed;
      failed, out, vals, tables := AncestorStep(reg, t, fetchAncestors, nodes, i, out, vals, tables);
      if failed.Some? {
        return Err(failed.value), tables;
      }
      i := i + 1;
    }
    AncestorsDone(reg.byType, t, fetchAncestors, nodes, out, vals, tables);
    r := Ok(out);
  }

  /** When the AncestorsAs loop has seen every record, its trees are the specification's. */
  lemma AncestorsDone(byType: map<TypeName, ErasedMapper>, t: TypeName, fetch: Id -> Result<seq<Node>>,
                      nodes: seq<Node>, out: seq<TypedTreeNode>, vals: seq<Payload>,
                      tables: seq<map<Id, TypedTreeNode>>)
    requires AncestorsSoFar(byType, t, fetch, nodes, |nodes|, out, vals, tables)
    ensures AgreesAll(Ok(out), Traverse(nodes, AncestorOf(byType, t, fetch)))
    ensures AncestorTrees(byType, t, fetch, nodes, out, tables)
  {
    assert nodes[..|nodes|] == nodes;
  }
}
