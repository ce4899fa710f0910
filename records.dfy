/** The stored records (node.go, tag.go, kv.go, content.go) and the node aggregate.
    Timestamps are opaque integers and the JSON metadata blob an opaque string: the core
    never computes with either. */
module Records {
  import opened Results

  type Id = string
  type Time = int

  /** The dynamic type of a domain value, `reflect.Type` of `T`. */
  type TypeName = string

  /** A domain value as the core sees it: an opaque payload. */
  type Payload = string

  /** A Go `any` holding a `*T`: the dynamic type and the value. */
  datatype Any = Any(typ: TypeName, payload: Payload)

  /** One row of the `nodes` table (NodeCore). Optional columns are `Option`s. */
  datatype NodeCore = NodeCore(
    id: Id,
    namespaceId: Option<Id>,
    parentId: Option<Id>,
    type_: string,
    kind: string,
    status: string,
    name: string,
    metadata: string,
    createdAt: Time,
    updatedAt: Time)

  /** One row of the `tags` table. */
  datatype Tag = Tag(id: Id, namespaceId: Option<Id>, name: string, createdAt: Time)

  /** One row of the `node_tags` join table; the pair is its primary key. */
  datatype NodeTag = NodeTag(nodeId: Id, tagId: Id)

  /** A float64 cell, kept opaque. */
  datatype Float = Float(bits: int)

  /** One row of the `kvs` table, keyed by (nodeId, key); at most one value arm is set. */
  datatype KV = KV(
    nodeId: Id,
    key: string,
    valueText: Option<string>,
    valueNumber: Option<Float>,
    valueInt: Option<int>,
    valueBool: Option<bool>,
    valueTime: Option<Time>)

  /** One row of the `contents` table, keyed by (nodeId, key). */
  datatype Content = Content(nodeId: Id, key: string, value: Option<string>, createdAt: Time, updatedAt: Time)

  /** The node aggregate: a core record and the side data read or written with it. */
  datatype Node = Node(core: NodeCore, tags: seq<Tag>, kv: map<string, KV>, content: map<string, Content>)

  /** The aggregate a bare row reads back as before any side data is attached. */
  function Bare(c: NodeCore): Node {
    Node(c, [], map[], map[])
  }

  /** A root: a record whose parent id is NULL or "". */
  predicate IsRoot(c: NodeCore) {
    c.parentId.None? || c.parentId.value == ""
  }

  /** The parent a record is attached under: its parent id when that is present and non-empty. */
  function ParentKey(c: NodeCore): (r: Option<Id>)
    ensures r.None? <==> IsRoot(c)
    ensures r.Some? ==> c.parentId == Some(r.value) && r.value != ""
  {
    if IsRoot(c) then None else c.parentId
  }
}
