/** TRepository[T] of typedrepository.go: a repository bound to one NodeMapper. Its Save
    issues the writes of the replacement sequence on the repository's own handle rather than on
    the transaction, so a failing step leaves the earlier writes in place; Delete refuses a
    node that has children and otherwise removes its core record, bindings and cells. */
module TypedRepositories {
  import opened Results
  import opened Records
  import opened Tables
  import opened KVStore
  import opened ContentStore
  import opened Storage
  import opened MapperRegistries
  import opened TypedOps

  /** The tables after a guarded Delete of `id`: the core record, every binding and every
      cell of `id` removed; tags and content rows untouched. */
  ghost predicate Deleted(before: Snapshot, after: Snapshot, id: Id) {
    && after.nodes == before.nodes - {id}
    && after.tags == before.tags
    && after.nodeTags == Unbound(before.nodeTags, id)
    && after.kvRows == Without(before.kvRows, id)
    && after.contentRows == before.contentRows
  }

  /** What a read sees after Delete: nothing of `id` but its content rows, and every other
      node exactly as before. */
  lemma DeleteReadsBack(before: Snapshot, after: Snapshot, id: Id)
    requires Deleted(before, after, id)
    ensures id !in after.nodes
    ensures forall k :: k != id ==> (k in after.nodes <==> k in before.nodes)
    ensures forall k :: k != id && k in after.nodes ==> after.nodes[k] == before.nodes[k]
    ensures forall b :: b in after.nodeTags ==> b.nodeId != id
    ensures forall b: NodeTag :: b.nodeId != id ==> (b in after.nodeTags <==> b in before.nodeTags)
    ensures RowsOf(after.kvRows, id) == map[]
    ensures forall n :: n != id ==> RowsOf(after.kvRows, n) == RowsOf(before.kvRows, n)
    ensures RowsOf(after.contentRows, id) == RowsOf(before.contentRows, id)
  {
    forall n | n != id ensures RowsOf(after.kvRows, n) == RowsOf(before.kvRows, n) {
      assert RowsOf(after.kvRows, n).Keys == RowsOf(before.kvRows, n).Keys;
    }
  }

  class TRepository {
    const store: Store
    const mapper: NodeMapper

    ghost predicate Valid()
      reads this, store, store.kv, store.content
    {
      store.Valid()
    }

    /** NewTRepository. */
    constructor (store: Store, mapper: NodeMapper)
      requires store.Valid()
      ensures Valid() && this.store == store && this.mapper == mapper
    {
      this.store := store;
      this.mapper := mapper;
    }

    /** Save as written: a conversion error returns before any write; otherwise the writes of
        WriteNode run one by one and are not undone when a later one fails. */
    method Save(model: Payload, uuid: nat -> Id) returns (r: Outcome)
      requires Valid()
      modifies store, store.kv, store.content
      ensures Valid()
      ensures mapper.toNode(model).Err? ==> r == Fail(mapper.toNode(model).error) && store.State() == old(store.State())
      ensures mapper.toNode(model).Ok? ==> PartialSave(old(store.State()), store.State(), r, mapper.toNode(model).value, uuid)
    {
      var node := mapper.toNode(model);
      if node.Err? {
        return Fail(node.error);
      }
      var id;
      r, id := WriteNode(store, node.value, uuid);
    }

    /** Save as evidently intended: the same steps inside one transaction, rolled back as a
        whole on failure, as Save[T] of repository_typed_ops.go does. */
    method SaveInTransaction(model: Payload, uuid: nat -> Id) returns (r: Outcome)
      requires Valid()
      modifies store, store.kv, store.content
      ensures Valid()
      ensures mapper.toNode(model).Err? ==> r == Fail(mapper.toNode(model).error)
      ensures r.Fail? ==> store.State() == old(store.State())
      ensures r.Pass? ==> mapper.toNode(model).Ok? && Saved(old(store.State()), store.State(), mapper.toNode(model).value, uuid)
      ensures mapper.toNode(model).Ok? ==>
                (r.Fail? <==> !Distinct(TagIds(mapper.toNode(model).value.tags, uuid, CoreDraws(mapper.toNode(model).value.core))))
    {
      var node := mapper.toNode(model);
      if node.Err? {
        return Fail(node.error);
      }
      var before := store.State();
      var id;
      r, id := WriteNode(store, node.value, uuid);
      if r.Fail? {
        store.Restore(before);
      }
    }

    /** Delete: fails with "cannot delete node with children" when some record's parent is
        `id`; otherwise removes the core record, the bindings and the cells of `id`. */
    method Delete(id: Id) returns (r: Outcome)
      requires Valid()
      modifies store, store.kv
      ensures Valid()
      ensures r.Fail? <==> exists k :: k in old(store.nodes) && old(store.nodes)[k].parentId == Some(id)
      ensures r.Fail? ==> r.error == HasChildren && store.State() == old(store.State())
      ensures r.Pass? ==> Deleted(old(store.State()), store.State(), id)
    {
      if store.ChildCount(id) > 0 {
        return Fail(HasChildren);
      }
      store.DeleteCore(id);
      store.DeleteBindings(id);
      store.kv.DeleteAll(id);
      r := Pass;
    }
  }

  /** The tables after the non-transactional Save of `n`: the core record is upserted and the
      other nodes' bindings kept whatever happens; it fails exactly on a repeated tag id, and
      then the tables are as the write sequence left them at the first repeat (Stopped): the
      node's earlier bindings are gone, the tags before the repeat are created and bound, and
      the cells are untouched; on success the tables are as a committed Save leaves them. */
  ghost predicate PartialSave(before: Snapshot, after: Snapshot, r: Outcome, n: Node, uuid: nat -> Id) {
    var id := NodeIdFor(n.core, uuid);
    && after.nodes == before.nodes[id := n.core.(id := id)]
    && Unbound(after.nodeTags, id) == Unbound(before.nodeTags, id)
    && (r.Fail? <==> !Distinct(TagIds(n.tags, uuid, CoreDraws(n.core))))
    && (r.Fail? ==> after.kvRows == before.kvRows && after.contentRows == before.contentRows)
    && (r.Fail? ==> exists j :: Stopped(before, after, n, id, TagIds(n.tags, uuid, CoreDraws(n.core)), j))
    && (r.Pass? ==> Saved(before, after, n, uuid))
  }

  /** The discrepancy: a node carrying the same tag twice makes Save fail, yet the failed Save
      has written a core record that was not there before. */
  lemma FailedSaveStillWrites(before: Snapshot, after: Snapshot, r: Outcome, n: Node, uuid: nat -> Id, t: Tag)
    requires t.id != "" && n.tags == [t, t] && n.core.id != "" && n.core.id !in before.nodes
    requires PartialSave(before, after, r, n, uuid)
    ensures r.Fail?
    ensures after.nodes != before.nodes && after.nodes[n.core.id] == n.core
  {
    TagIdsSpec(n.tags, uuid, CoreDraws(n.core));
    var ids := TagIds(n.tags, uuid, CoreDraws(n.core));
    assert ids[0] == ids[1];
    assert !Distinct(ids);
    assert n.core.(id := n.core.id) == n.core;
  }

  /** The same failed Save has replaced the node's bindings: a binding it had before to another
      tag is gone, and only the binding to the first of the two equal tags, which is created,
      is left. */
  lemma FailedSaveDropsBindings(before: Snapshot, after: Snapshot, r: Outcome, n: Node, uuid: nat -> Id, t: Tag, stale: Id)
    requires t.id != "" && n.tags == [t, t] && n.core.id != ""
    requires NodeTag(n.core.id, stale) in before.nodeTags && stale != t.id
    requires PartialSave(before, after, r, n, uuid)
    ensures r.Fail?
    ensures NodeTag(n.core.id, stale) !in after.nodeTags
    ensures after.nodeTags == Unbound(before.nodeTags, n.core.id) + {NodeTag(n.core.id, t.id)}
    ensures t.id in after.tags
  {
    TagIdsSpec(n.tags, uuid, CoreDraws(n.core));
    var ids := TagIds(n.tags, uuid, CoreDraws(n.core));
    assert ids[0] == ids[1] == t.id;
    assert !Distinct(ids);
    var j :| Stopped(before, after, n, n.core.id, ids, j);
    StoppedAtSecond(before, after, n, n.core.id, ids, j);
  }

  /** A write sequence of two tags that stopped stopped at the second one. */
  lemma StoppedAtSecond(before: Snapshot, after: Snapshot, n: Node, id: Id, ids: seq<Id>, j: int)
    requires |ids| == |n.tags| == 2 && Stopped(before, after, n, id, ids, j)
    ensures after.nodeTags == Unbound(before.nodeTags, id) + {NodeTag(id, ids[0])}
    ensures ids[0] in after.tags
  {
    assert j == 1 && ids[..1] == [ids[0]];
    assert Bindings(id, ids[..1]) == {NodeTag(id, ids[0])};
  }

  /** The corrected Save leaves nothing behind when it fails: for the same node the tables are
      as they were. With the same input as FailedSaveStillWrites it fails and writes nothing. */
  lemma TransactionalSaveRollsBack(before: Snapshot, after: Snapshot, r: Outcome, n: Node, uuid: nat -> Id, t: Tag)
    requires t.id != "" && n.tags == [t, t]
    requires r.Fail? <==> !Distinct(TagIds(n.tags, uuid, CoreDraws(n.core)))
    requires r.Fail? ==> after == before
    ensures r.Fail? && after.nodes == before.nodes
  {
    TagIdsSpec(n.tags, uuid, CoreDraws(n.core));
    var ids := TagIds(n.tags, uuid, CoreDraws(n.core));
    assert ids[0] == ids[1];
  }
}
