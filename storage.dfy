/** The five tables the repositories write: `nodes`, `tags` and `node_tags` held here, `kvs`
    and `contents` behind their side-store repositories. Each method is one GORM statement
    whose effect on the tables the repositories rely on. */
module Storage {
  import opened Results
  import opened Records
  import opened Tables
  import opened KVStore
  import opened ContentStore

  /** The contents of all five tables at one moment. */
  datatype Snapshot = Snapshot(
    nodes: map<Id, NodeCore>,
    tags: map<Id, Tag>,
    nodeTags: set<NodeTag>,
    kvRows: map<RowKey, KV>,
    contentRows: map<RowKey, Content>)

  /** The bindings of every node other than `id`. */
  function Unbound(nodeTags: set<NodeTag>, id: Id): (r: set<NodeTag>)
    ensures forall b :: b in r <==> b in nodeTags && b.nodeId != id
  {
    set b | b in nodeTags && b.nodeId != id
  }

  class Store {
    var nodes: map<Id, NodeCore>
    var tags: map<Id, Tag>
    var nodeTags: set<NodeTag>
    const kv: KVRepository
    const content: ContentRepository

    /** Every row is stored under its own primary key. */
    ghost predicate Valid()
      reads this, kv, content
    {
      && kv.Valid() && content.Valid()
      && (forall id :: id in nodes ==> nodes[id].id == id)
      && (forall id :: id in tags ==> tags[id].id == id)
    }

    constructor (kv: KVRepository, content: ContentRepository)
      requires kv.Valid() && content.Valid()
      ensures Valid() && this.kv == kv && this.content == content
      ensures nodes == map[] && tags == map[] && nodeTags == {}
      ensures kv.rows == old(kv.rows) && content.rows == old(content.rows)
    {
      nodes := map[];
      tags := map[];
      nodeTags := {};
      this.kv := kv;
      this.content := content;
    }

    function State(): Snapshot
      reads this, kv, content
    {
      Snapshot(nodes, tags, nodeTags, kv.rows, content.rows)
    }

    /** A rolled-back transaction: every table is put back as it was. */
    method Restore(s: Snapshot)
      requires KVStore.WellKeyed(s.kvRows) && ContentStore.WellKeyed(s.contentRows)
      requires forall id :: id in s.nodes ==> s.nodes[id].id == id
      requires forall id :: id in s.tags ==> s.tags[id].id == id
      modifies this, kv, content
      ensures Valid() && State() == s
    {
      nodes := s.nodes;
      tags := s.tags;
      nodeTags := s.nodeTags;
      kv.rows := s.kvRows;
      content.rows := s.contentRows;
    }

    /** `Save(&core)`: an upsert on the primary key. */
    method SaveCore(c: NodeCore)
      requires Valid()
      modifies this
      ensures Valid()
      ensures nodes == old(nodes)[c.id := c] && tags == old(tags) && nodeTags == old(nodeTags)
    {
      nodes := nodes[c.id := c];
    }

    /** `Delete(&NodeCore{}, "id = ?")`. */
    method DeleteCore(id: Id)
      requires Valid()
      modifies this
      ensures Valid()
      ensures nodes == old(nodes) - {id} && tags == old(tags) && nodeTags == old(nodeTags)
    {
      nodes := nodes - {id};
    }

    /** `Delete(&NodeTag{}, "node_id = ?")`: drops every binding of the node. */
    method DeleteBindings(id: Id)
      requires Valid()
      modifies this
      ensures Valid()
      ensures nodeTags == Unbound(old(nodeTags), id) && nodes == old(nodes) && tags == old(tags)
    {
      nodeTags := Unbound(nodeTags, id);
    }

    /** `FirstOrCreate(tag, Tag{Id: tag.Id})`: an existing row with the id is kept as it is;
        otherwise the tag is inserted. */
    method FirstOrCreateTag(t: Tag)
      requires Valid()
      modifies this
      ensures Valid()
      ensures tags == (if t.id in old(tags) then old(tags) else old(tags)[t.id := t])
      ensures nodes == old(nodes) && nodeTags == old(nodeTags)
    {
      if t.id !in tags {
        tags := tags[t.id := t];
      }
    }

    /** `Create(nodeTag)`: fails on the (NodeId, TagId) primary key when the pair exists. */
    method CreateBinding(b: NodeTag) returns (r: Outcome)
      requires Valid()
      modifies this
      ensures Valid()
      ensures r.Fail? <==> b in old(nodeTags)
      ensures r.Fail? ==> r.error == DuplicateBinding(b.nodeId, b.tagId) && nodeTags == old(nodeTags)
      ensures r.Pass? ==> nodeTags == old(nodeTags) + {b}
      ensures nodes == old(nodes) && tags == old(tags)
    {
      if b in nodeTags {
        return Fail(DuplicateBinding(b.nodeId, b.tagId));
      }
      nodeTags := nodeTags + {b};
      r := Pass;
    }

    /** `Where("parent_id = ?", id).Count(&count)`: the number of records directly under `id`. */
    function ChildCount(id: Id): (r: nat)
      reads this
      ensures r == 0 <==> forall k :: k in nodes ==> nodes[k].parentId != Some(id)
    {
      var children := set k | k in nodes && nodes[k].parentId == Some(id);
      assert forall k :: k in nodes && nodes[k].parentId == Some(id) ==> k in children;
      |children|
    }
  }
}
