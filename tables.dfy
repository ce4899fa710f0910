/** Helpers shared by the two side tables keyed by (node id, key): kvs and contents. */
module Tables {
  import opened Records

  /** The composite primary key (NodeId, Key). */
  type RowKey = (Id, string)

  /** The keys of the rows that belong to node `n`. */
  function KeysOf<R>(rows: map<RowKey, R>, n: Id): (r: set<string>)
    ensures forall k :: k in r <==> (n, k) in rows
  {
    var r := set p | p in rows && p.0 == n :: p.1;
    assert forall k :: (n, k) in rows ==> (n, k).1 in r;
    r
  }

  /** The rows of node `n`, keyed by their key: what `WHERE node_id = n` returns, grouped by key. */
  function RowsOf<R>(rows: map<RowKey, R>, n: Id): (r: map<string, R>)
    ensures forall k :: k in r <==> (n, k) in rows
    ensures forall k :: k in r ==> r[k] == rows[(n, k)]
  {
    map k | k in KeysOf(rows, n) :: rows[(n, k)]
  }

  /** The node ids that own at least one row. */
  function Owners<R>(rows: map<RowKey, R>): (r: set<Id>)
    ensures forall n, k :: (n, k) in rows ==> n in r
    ensures forall n :: n in r ==> RowsOf(rows, n) != map[]
  {
    var r := set p | p in rows :: p.0;
    assert forall n, k :: (n, k) in rows ==> (n, k).0 in r;
    assert forall n :: n in r ==> exists p :: p in rows && p.0 == n && p.1 in RowsOf(rows, n);
    r
  }

  /** The bulk lookup `GetAllForNodes(ids)` specifies: every owner among `ids`, mapped to its rows. */
  function Grouped<R>(rows: map<RowKey, R>, ids: set<Id>): (g: map<Id, map<string, R>>)
    ensures forall n :: n in g <==> n in ids && RowsOf(rows, n) != map[]
    ensures forall n :: n in g ==> g[n] == RowsOf(rows, n)
  {
    assert forall n :: RowsOf(rows, n) != map[] ==> n in Owners(rows) by {
      forall n | RowsOf(rows, n) != map[] ensures n in Owners(rows) {
        var k :| k in RowsOf(rows, n);
      }
    }
    map n | n in Owners(rows) && n in ids :: RowsOf(rows, n)
  }

  /** The table after `DELETE ... WHERE node_id = n`. */
  function Without<R>(rows: map<RowKey, R>, n: Id): (r: map<RowKey, R>)
    ensures forall p :: p in r <==> p in rows && p.0 != n
    ensures forall p :: p in r ==> r[p] == rows[p]
  {
    map p | p in rows && p.0 != n :: rows[p]
  }

  /** `result[n][k] = v`, creating the inner map for `n` when it is missing. */
  function Insert<R>(g: map<Id, map<string, R>>, n: Id, k: string, v: R): (h: map<Id, map<string, R>>)
    ensures h.Keys == g.Keys + {n}
    ensures h[n] == (if n in g then g[n] else map[])[k := v]
    ensures forall m :: m in g && m != n ==> h[m] == g[m]
  {
    g[n := (if n in g then g[n] else map[])[k := v]]
  }

  /** `g` groups exactly the rows whose keys are in `done`, and holds no empty group. */
  ghost predicate GroupsExactly<R>(g: map<Id, map<string, R>>, rows: map<RowKey, R>, done: set<RowKey>) {
    && (forall n, k :: n in g && k in g[n] ==> (n, k) in done && (n, k) in rows && g[n][k] == rows[(n, k)])
    && (forall p :: p in done ==> p.0 in g && p.1 in g[p.0])
    && (forall n :: n in g ==> g[n] != map[])
  }

  /** Grouping one more row keeps the grouping exact. */
  lemma GroupsExactlyStep<R>(g: map<Id, map<string, R>>, rows: map<RowKey, R>, done: set<RowKey>, p: RowKey)
    requires GroupsExactly(g, rows, done) && p in rows
    ensures GroupsExactly(Insert(g, p.0, p.1, rows[p]), rows, done + {p})
  {
    var h := Insert(g, p.0, p.1, rows[p]);
    forall n, k | n in h && k in h[n]
      ensures (n, k) in done + {p} && (n, k) in rows && h[n][k] == rows[(n, k)]
    {
      if n == p.0 && k == p.1 {
      } else if n == p.0 {
        assert k in g[n];
      } else {
        assert k in g[n];
      }
    }
  }

  /** The two statements that store a row in the grouping, creating the inner map when it is
      missing and then setting the key, amount to Insert. */
  lemma InsertInPlace<R>(g: map<Id, map<string, R>>, n: Id, k: string, v: R)
    ensures var g1 := if n in g then g else g[n := map[]]; g1[n := g1[n][k := v]] == Insert(g, n, k, v)
  {
  }

  /** Grouping a row taken from the pending ones keeps the grouping exact over the rows handled. */
  lemma GroupPending<R>(g: map<Id, map<string, R>>, rows: map<RowKey, R>, found: set<RowKey>, pending: set<RowKey>, p: RowKey)
    requires pending <= found && p in pending && p in rows
    requires GroupsExactly(g, rows, found - pending)
    ensures GroupsExactly(Insert(g, p.0, p.1, rows[p]), rows, found - (pending - {p}))
  {
    GroupsExactlyStep(g, rows, found - pending, p);
    assert found - (pending - {p}) == (found - pending) + {p};
  }

  /** One group of an exact grouping holds all the rows of its node. */
  lemma GroupsExactlyAt<R>(g: map<Id, map<string, R>>, rows: map<RowKey, R>, done: set<RowKey>, n: Id)
    requires GroupsExactly(g, rows, done) && n in g
    requires forall k :: (n, k) in rows ==> (n, k) in done
    ensures g[n] == RowsOf(rows, n)
  {
    assert g[n].Keys == RowsOf(rows, n).Keys;
  }

  /** Once every selected row is grouped, the result is the bulk lookup's specification. */
  lemma GroupsExactlyAll<R>(g: map<Id, map<string, R>>, rows: map<RowKey, R>, ids: set<Id>, done: set<RowKey>)
    requires forall p :: p in done <==> p in rows && p.0 in ids
    requires GroupsExactly(g, rows, done)
    ensures g == Grouped(rows, ids)
  {
    var spec := Grouped(rows, ids);
    forall n | n in g ensures n in spec && g[n] == spec[n] {
      var k :| k in g[n];
      assert (n, k) in done;
      GroupsExactlyAt(g, rows, done, n);
    }
    forall n | n in spec ensures n in g {
      var k :| k in RowsOf(rows, n);
      assert (n, k) in done;
    }
    assert g.Keys == spec.Keys;
  }

  // Solver helper: a set identity the loop proofs call to steer the verifier; it models nothing
  // of its own.

  /** A loop over a key set moves one key from the pending keys to the handled ones. */
  lemma MoveKey<T>(done: set<T>, pending: set<T>, d: T)
    requires d in pending
    ensures (done + {d}) + (pending - {d}) == done + pending
  {
  }
}
