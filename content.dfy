/** The content side store (content.go): the `contents` table keyed by (NodeId, Key), and the
    conversions between a node's content map and a plain string map. */
module ContentStore {
  import opened Results
  import opened Records
  import opened Tables

  /** Every row is stored under its own (NodeId, Key): the primary key of content.go:10-11. */
  ghost predicate WellKeyed(rows: map<RowKey, Content>) {
    forall p :: p in rows ==> rows[p].nodeId == p.0 && rows[p].key == p.1
  }

  /** ContentRepository: a handle on the `contents` table; `rows` is the table itself. */
  class ContentRepository {
    var rows: map<RowKey, Content>

    ghost predicate Valid()
      reads this
    {
      WellKeyed(rows)
    }

    constructor (table: map<RowKey, Content>)
      requires WellKeyed(table)
      ensures Valid() && rows == table
    {
      rows := table;
    }

    /** The bulk load: one SELECT for all `nodeIds`, grouped by node id and then by key. */
    method GetAllForNodes(nodeIds: seq<Id>) returns (r: map<Id, map<string, Content>>)
      requires Valid()
      ensures r == Grouped(rows, set i | 0 <= i < |nodeIds| :: nodeIds[i])
      ensures forall n :: n in r ==> forall k :: k in r[n] ==> r[n][k].nodeId == n && r[n][k].key == k
    {
      var ids := set i | 0 <= i < |nodeIds| :: nodeIds[i];
      var found := set p | p in rows && p.0 in ids;
      var pending := found;
      r := map[];
      while pending != {}
        invariant pending <= found
        invariant GroupsExactly(r, rows, found - pending)
        decreases pending
      {
        var p :| p in pending;
        var content := rows[p];
        assert content.nodeId == p.0 && content.key == p.1;
        InsertInPlace(r, p.0, p.1, content);
        GroupPending(r, rows, found, pending, p);
        if content.nodeId !in r {
          r := r[content.nodeId := map[]];
        }
        var contentCopy := content;
        r := r[content.nodeId := r[content.nodeId][content.key := contentCopy]];
        pending := pending - {p};
      }
      GroupsExactlyAll(r, rows, ids, found);
    }

    /** `Save(content)`: an upsert on (NodeId, Key). */
    method Save(content: Content)
      requires Valid()
      modifies this
      ensures Valid()
      ensures rows == old(rows)[(content.nodeId, content.key) := content]
    {
      rows := rows[(content.nodeId, content.key) := content];
    }

    /** `Delete(&Content{}, "node_id = ?")`: removes every row of the node and nothing else. */
    method DeleteAll(nodeId: Id)
      requires Valid()
      modifies this
      ensures Valid()
      ensures rows == Without(old(rows), nodeId)
    {
      rows := Without(rows, nodeId);
    }
  }

  /** ConvertContentToStringMap: keeps the entries whose Value is set, unwrapped. */
  function ContentToStringMap(contents: map<string, Content>): (r: map<string, string>)
    ensures r.Keys <= contents.Keys
    ensures forall k :: k in contents ==> (k in r <==> contents[k].value.Some?)
    ensures forall k :: k in r ==> contents[k].value == Some(r[k])
  {
    map k | k in contents && contents[k].value.Some? :: contents[k].value.value
  }

  /** The content entry ConvertStringMapToContent builds for one key: no owner yet, zero timestamps. */
  function Fresh(key: string, value: string): Content {
    Content("", key, Some(value), 0, 0)
  }

  /** ConvertStringMapToContent: one entry per key, keyed and valued by that key's string. */
  function StringMapToContent(data: map<string, string>): (r: map<string, Content>)
    ensures r.Keys == data.Keys
    ensures forall k :: k in r ==> r[k].key == k && r[k].value == Some(data[k]) && r[k].nodeId == ""
  {
    map k | k in data :: Fresh(k, data[k])
  }

  /** A content map as StringMapToContent produces it. */
  ghost predicate Canonical(contents: map<string, Content>) {
    forall k :: k in contents ==> contents[k].value.Some? && contents[k] == Fresh(k, contents[k].value.value)
  }

  /** Converting a string map to content and back gives the string map again. */
  lemma StringMapRoundTrip(data: map<string, string>)
    ensures ContentToStringMap(StringMapToContent(data)) == data
  {
    var back := ContentToStringMap(StringMapToContent(data));
    assert back.Keys == data.Keys;
  }

  /** The other way round holds exactly for the canonical content maps; any other map loses
      its owner, its timestamps, a mismatched key or a nil value in the round trip. */
  lemma ContentRoundTrip(contents: map<string, Content>)
    ensures StringMapToContent(ContentToStringMap(contents)) == contents <==> Canonical(contents)
  {
    var back := StringMapToContent(ContentToStringMap(contents));
    if Canonical(contents) {
      assert back.Keys == contents.Keys;
    }
    if back == contents {
      forall k | k in contents ensures contents[k].value.Some? && contents[k] == Fresh(k, contents[k].value.value) {
        assert k in back;
      }
    }
  }
}
