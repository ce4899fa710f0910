/** The key/value side store (kv.go): the `kvs` table keyed by (NodeId, Key). */
module KVStore {
  import opened Results
  import opened Records
  import opened Tables

  /** Every row is stored under its own (NodeId, Key): the primary key of kv.go:11-12. */
  ghost predicate WellKeyed(rows: map<RowKey, KV>) {
    forall p :: p in rows ==> rows[p].nodeId == p.0 && rows[p].key == p.1
  }

  /** KVRepository: a handle on the `kvs` table; `rows` is the table itself. */
  class KVRepository {
    var rows: map<RowKey, KV>

    ghost predicate Valid()
      reads this
    {
      WellKeyed(rows)
    }

    constructor (table: map<RowKey, KV>)
      requires WellKeyed(table)
      ensures Valid() && rows == table
    {
      rows := table;
    }

    /** `Save(kv)`: an upsert on (NodeId, Key); every other pair keeps its row. */
    method Set(kv: KV)
      requires Valid()
      modifies this
      ensures Valid()
      ensures rows == old(rows)[(kv.nodeId, kv.key) := kv]
    {
      rows := rows[(kv.nodeId, kv.key) := kv];
    }

    /** `First(&kv, "node_id = ? AND key = ?")`: the row for the pair, or NotFound. */
    method Get(nodeId: Id, key: string) returns (r: Result<KV>)
      requires Valid()
      ensures r.Ok? <==> (nodeId, key) in rows
      ensures r.Ok? ==> r.value == rows[(nodeId, key)] && r.value.nodeId == nodeId && r.value.key == key
      ensures r.Err? ==> r.error == NotFound
    {
      if (nodeId, key) in rows {
        r := Ok(rows[(nodeId, key)]);
      } else {
        r := Err(NotFound);
      }
    }

    /** All rows of one node keyed by their key. The rows the SELECT returns come in no
        particular order; the loop takes them in an arbitrary one. */
    method GetAll(nodeId: Id) returns (r: map<string, KV>)
      requires Valid()
      ensures r == RowsOf(rows, nodeId)
      ensures forall k :: k in r ==> r[k].key == k && r[k].nodeId == nodeId
    {
      var found := set p | p in rows && p.0 == nodeId;
      var pending := found;
      r := map[];
      while pending != {}
        invariant pending <= found
        invariant forall k :: k in r <==> (nodeId, k) in found - pending
        invariant forall k :: k in r ==> r[k] == rows[(nodeId, k)]
        decreases pending
      {
        var p :| p in pending;
        var kvCopy := rows[p];
        r := r[kvCopy.key := kvCopy];
        pending := pending - {p};
      }
      assert r.Keys == RowsOf(rows, nodeId).Keys;
    }

    /** The bulk load: one SELECT for all `nodeIds`, grouped by node id and then by key.
        A node without rows gets no entry. */
    method GetAllForNodes(nodeIds: seq<Id>) returns (r: map<Id, map<string, KV>>)
      requires Valid()
      ensures r == Grouped(rows, set i | 0 <= i < |nodeIds| :: nodeIds[i])
      ensures forall n :: n in r ==> forall k :: k in r[n] ==> r[n][k].nodeId == n && r[n][k].key == k
    {
      var ids := set i | 0 <= i < |nodeIds| :: nodeIds[i];
      var found := set p | p in rows && p.0 in ids;
      var pending := found;
      r := map[];
      while pending != {}
        invariant pending <= found
        invariant GroupsExactly(r, rows, found - pending)
        decreases pending
      {
        var p :| p in pending;
        var kvCopy := rows[p];
        assert kvCopy.nodeId == p.0 && kvCopy.key == p.1;
        InsertInPlace(r, p.0, p.1, kvCopy);
        GroupPending(r, rows, found, pending, p);
        if kvCopy.nodeId !in r {
          r := r[kvCopy.nodeId := map[]];
        }
        r := r[kvCopy.nodeId := r[kvCopy.nodeId][kvCopy.key := kvCopy]];
        pending := pending - {p};
      }
      GroupsExactlyAll(r, rows, ids, found);
    }

    /** `Delete(&KV{}, "node_id = ?")`: removes every row of the node and nothing else. */
    method DeleteAll(nodeId: Id)
      requires Valid()
      modifies this
      ensures Valid()
      ensures rows == Without(old(rows), nodeId)
    {
      rows := Without(rows, nodeId);
    }

    /** `Delete(&KV{}, "node_id = ? AND key = ?")`: removes only that pair. */
    method Delete(nodeId: Id, key: string)
      requires Valid()
      modifies this
      ensures Valid()
      ensures rows == old(rows) - {(nodeId, key)}
    {
      rows := rows - {(nodeId, key)};
    }
  }
}
