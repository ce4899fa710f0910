/** The typed repository operations of repository_typed_ops.go: Save, which replaces a node's
    core record, tag bindings, key/value cells and content completely inside one transaction,
    and ListAs/FirstAs, which map fetched nodes to typed values. `uuid.New()` is the parameter
    `uuid`, the k-th call returning `uuid(k)`. */
module TypedOps {
  import opened Results
  import opened Records
  import opened Tables
  import opened KVStore
  import opened ContentStore
  import opened MapperRegistries
  import opened Storage
  import NodeQueries
  import Trees

  /** What Save assumes of `uuid.New()`: never empty, never repeated, never an id in use. */
  ghost predicate FreshIds(uuid: nat -> Id, used: set<Id>) {
    && (forall k :: uuid(k) != "" && uuid(k) !in used)
    && (forall j, k :: j != k ==> uuid(j) != uuid(k))
  }

  /** The id the node is saved under: its own, or the first id drawn when it has none. */
  function NodeIdFor(c: NodeCore, uuid: nat -> Id): Id {
    if c.id == "" then uuid(0) else c.id
  }

  /** How many ids the core record draws. */
  function CoreDraws(c: NodeCore): nat {
    if c.id == "" then 1 else 0
  }

  /** The number of tags without an id, each of which draws one. */
  function Empties(ts: seq<Tag>): (r: nat)
    ensures r <= |ts|
    decreases |ts|
  {
    if ts == [] then 0 else Empties(ts[..|ts| - 1]) + (if ts[|ts| - 1].id == "" then 1 else 0)
  }

  /** The ids the tag loop binds, in order, when the first of them draws `uuid(next)`
      (TagIdsSpec). */
  function TagIds(ts: seq<Tag>, uuid: nat -> Id, next: nat): (r: seq<Id>)
    ensures |r| == |ts|
    decreases |ts|
  {
    if ts == [] then []
    else
      var init := ts[..|ts| - 1];
      var last := ts[|ts| - 1];
      TagIds(init, uuid, next) + [if last.id == "" then uuid(next + Empties(init)) else last.id]
  }

  /** A tag keeps its own id, and the tags without one take consecutive fresh ids, the one
      at position i drawing after the empty ids before it. */
  lemma TagIdsSpec(ts: seq<Tag>, uuid: nat -> Id, next: nat)
    ensures forall i :: 0 <= i < |ts| && ts[i].id != "" ==> TagIds(ts, uuid, next)[i] == ts[i].id
    ensures forall i :: 0 <= i < |ts| && ts[i].id == "" ==> TagIds(ts, uuid, next)[i] == uuid(next + Empties(ts[..i]))
  {
    forall i | 0 <= i < |ts| ensures TagIds(ts, uuid, next)[i] == TagIdAt(ts, uuid, next, i) {
      TagIdsAt(ts, uuid, next, i);
    }
  }

  /** The id tag `i` gets: its own, or the fresh id drawn after the empty ids before it. */
  function TagIdAt(ts: seq<Tag>, uuid: nat -> Id, next: nat, i: nat): Id
    requires i < |ts|
  {
    if ts[i].id == "" then uuid(next + Empties(ts[..i])) else ts[i].id
  }

  lemma {:induction false} TagIdsAt(ts: seq<Tag>, uuid: nat -> Id, next: nat, i: nat)
    requires i < |ts|
    ensures TagIds(ts, uuid, next)[i] == TagIdAt(ts, uuid, next, i)
    decreases |ts|
  {
    var n := |ts| - 1;
    var init := ts[..n];
    assert TagIds(ts, uuid, next) == TagIds(init, uuid, next) + [TagIdAt(ts, uuid, next, n)];
    if i < n {
      TagIdsAt(init, uuid, next, i);
      assert init[..i] == ts[..i] && init[i] == ts[i];
    }
  }

  /** The id the tag loop gives tag `i`, and the draws counted once it is done. */
  lemma TagIdsStep(ts: seq<Tag>, uuid: nat -> Id, next: nat, i: nat)
    requires i < |ts|
    ensures TagIds(ts, uuid, next)[i] == (if ts[i].id == "" then uuid(next + Empties(ts[..i])) else ts[i].id)
    ensures Empties(ts[..i + 1]) == Empties(ts[..i]) + (if ts[i].id == "" then 1 else 0)
  {
    TagIdsAt(ts, uuid, next, i);
    assert ts[..i + 1][..i] == ts[..i];
  }

  /** Counting the empty ids of a longer prefix counts at least as many. */
  lemma {:induction false} EmptiesMonotone(ts: seq<Tag>, i: nat, j: nat)
    requires i <= j <= |ts|
    ensures Empties(ts[..i]) <= Empties(ts[..j])
    ensures i < j && ts[i].id == "" ==> Empties(ts[..i]) < Empties(ts[..j])
    decreases j - i
  {
    if i < j {
      EmptiesMonotone(ts, i + 1, j);
      assert ts[..i + 1][..i] == ts[..i];
      assert ts[..i + 1][i] == ts[i];
    }
  }

  predicate Distinct(s: seq<Id>) {
    forall i, j :: 0 <= i < j < |s| ==> s[i] != s[j]
  }

  lemma DistinctSnoc(s: seq<Id>, x: Id)
    ensures Distinct(s + [x]) <==> Distinct(s) && x !in s
  {
    var t := s + [x];
    assert forall i :: 0 <= i < |s| ==> t[i] == s[i];
    if Distinct(s) && x !in s {
      forall i, j | 0 <= i < j < |t| ensures t[i] != t[j] {
        if j == |s| {
          assert t[j] == x && t[i] == s[i];
        }
      }
    } else if !Distinct(s) {
      var i, j :| 0 <= i < j < |s| && s[i] == s[j];
      assert t[i] == t[j];
    } else {
      var k :| 0 <= k < |s| && s[k] == x;
      assert t[k] == t[|s|];
    }
  }

  /** A sequence with a repeated id in a prefix has a repeated id. */
  lemma DistinctPrefix(s: seq<Id>, n: nat)
    requires n <= |s| && !Distinct(s[..n])
    ensures !Distinct(s)
  {
    var i, j :| 0 <= i < j < n && s[..n][i] == s[..n][j];
    assert s[i] == s[j];
  }

  /** Tags without an id never collide with each other or with the ids the caller supplied
      when the drawn ids are fresh, so two tags bind the same id exactly when the caller
      supplied that id twice. */
  lemma TagIdsDistinct(ts: seq<Tag>, uuid: nat -> Id, next: nat)
    requires FreshIds(uuid, set i | 0 <= i < |ts| :: ts[i].id)
    ensures Distinct(TagIds(ts, uuid, next)) <==>
              forall i, j :: 0 <= i < j < |ts| && ts[i].id != "" ==> ts[i].id != ts[j].id
  {
    var ids := TagIds(ts, uuid, next);
    TagIdsSpec(ts, uuid, next);
    if forall i, j :: 0 <= i < j < |ts| && ts[i].id != "" ==> ts[i].id != ts[j].id {
      forall i, j | 0 <= i < j < |ts| ensures ids[i] != ids[j] {
        if ts[i].id == "" && ts[j].id == "" {
          EmptiesMonotone(ts, i, j);
        } else if ts[i].id == "" {
          assert ts[j].id in set k | 0 <= k < |ts| :: ts[k].id;
        } else if ts[j].id == "" {
          assert ts[i].id in set k | 0 <= k < |ts| :: ts[k].id;
        }
      }
    }
  }

  /** The bindings the tag loop creates for node `id`. */
  function Bindings(id: Id, ids: seq<Id>): (r: set<NodeTag>)
    ensures forall b :: b in r <==> b.nodeId == id && b.tagId in ids
  {
    set a | a in ids :: NodeTag(id, a)
  }

  /** The tag table after FirstOrCreate of every tag under the ids it was given: the rows that
      existed are kept as they were, and each new id holds the supplied tag under that id. */
  ghost predicate Created(before: map<Id, Tag>, after: map<Id, Tag>, ts: seq<Tag>, ids: seq<Id>)
    requires |ts| == |ids|
  {
    && (forall a :: a in after <==> a in before || a in ids)
    && (forall a :: a in before ==> after[a] == before[a])
    && (forall i :: 0 <= i < |ids| && ids[i] !in before ==> after[ids[i]] == ts[i].(id := ids[i]))
  }

  /** The rows of node `id` after its cells were written one by one keyed by their own key
      and owned by `id`: a key is present exactly when some written cell carries it, and holds
      one such cell. When the cell map is keyed by the cells' own keys this is exactly the
      stamped map (CellsWrittenExactly). */
  ghost predicate Written<R>(rows: map<RowKey, R>, id: Id, cells: map<string, R>, done: set<string>,
                             key: R -> string, own: (R, Id) -> R)
  {
    && (forall k :: (id, k) in rows ==> exists d :: d in done && d in cells && key(cells[d]) == k && rows[(id, k)] == own(cells[d], id))
    && (forall d :: d in done && d in cells ==> (id, key(cells[d])) in rows)
  }

  function KVKey(v: KV): string { v.key }
  function KVOwn(v: KV, id: Id): KV { v.(nodeId := id) }
  function ContentKey(c: Content): string { c.key }
  function ContentOwn(c: Content, id: Id): Content { c.(nodeId := id) }

  /** The supplied cells, each owned by `id`: `kv.NodeId = id` on every entry. */
  function Stamped<R>(cells: map<string, R>, id: Id, own: (R, Id) -> R): (r: map<string, R>)
    ensures r.Keys == cells.Keys
    ensures forall d :: d in r ==> r[d] == own(cells[d], id)
  {
    map d | d in cells :: own(cells[d], id)
  }

  /** A cell map whose entries carry their own map key, as ConvertStringMapToContent builds. */
  ghost predicate SelfKeyed<R>(cells: map<string, R>, key: R -> string) {
    forall d :: d in cells ==> key(cells[d]) == d
  }

  /** For a self-keyed map the rows written for `id` are the supplied cells, each owned by `id`. */
  lemma CellsWrittenExactly<R>(rows: map<RowKey, R>, id: Id, cells: map<string, R>, key: R -> string, own: (R, Id) -> R)
    requires Written(rows, id, cells, cells.Keys, key, own) && SelfKeyed(cells, key)
    ensures RowsOf(rows, id) == Stamped(cells, id, own)
  {
    var spec := Stamped(cells, id, own);
    forall k | k in RowsOf(rows, id) ensures k in spec && RowsOf(rows, id)[k] == spec[k] {
      var d :| d in cells && key(cells[d]) == k && rows[(id, k)] == own(cells[d], id);
    }
    forall d | d in cells ensures d in RowsOf(rows, id) {
      assert (id, key(cells[d])) in rows;
    }
    assert RowsOf(rows, id).Keys == spec.Keys;
  }

  /** The tag loop of Save, run after the node's old bindings were deleted: each tag gets
      its id (a fresh one when it has none), is created unless a tag with that id exists, and
      is bound to `id`. A second binding of the same pair fails on the primary key. */
  method BindTags(store: Store, id: Id, ts: seq<Tag>, uuid: nat -> Id, next: nat) returns (r: Outcome)
    requires store.Valid()
    requires forall b :: b in store.nodeTags ==> b.nodeId != id
    modifies store
    ensures store.Valid() && store.nodes == old(store.nodes)
    ensures forall a :: a in old(store.tags) ==> a in store.tags && store.tags[a] == old(store.tags)[a]
    ensures OnlyBinds(old(store.nodeTags), store.nodeTags, id)
    ensures r.Fail? <==> !Distinct(TagIds(ts, uuid, next))
    ensures r.Pass? ==> store.nodeTags == old(store.nodeTags) + Bindings(id, TagIds(ts, uuid, next))
    ensures r.Pass? ==> Created(old(store.tags), store.tags, ts, TagIds(ts, uuid, next))
    ensures r.Fail? ==> exists j :: TagsStopped(store, id, old(store.nodeTags), old(store.tags), ts, TagIds(ts, uuid, next), j)
  {
    var k := next;
    var i := 0;
    TagsBoundStart(store, id, ts, TagIds(ts, uuid, next));
    while i < |ts|
      invariant 0 <= i <= |ts| && k == next + Empties(ts[..i])
      invariant store.nodes == old(store.nodes)
      invariant forall a :: a in old(store.tags) ==> a in store.tags && store.tags[a] == old(store.tags)[a]
      invariant TagsBound(store, id, old(store.nodeTags), old(store.tags), ts[..i], TagIds(ts, uuid, next)[..i])
      invariant OnlyBinds(old(store.nodeTags), store.nodeTags, id)
    {
      r, k := TagStep(store, id, ts, uuid, next, i, k, old(store.nodeTags), old(store.tags));
      if r.Fail? {
        DistinctPrefix(TagIds(ts, uuid, next), i + 1);
        assert TagsStopped(store, id, old(store.nodeTags), old(store.tags), ts, TagIds(ts, uuid, next), i);
        return;
      }
      i := i + 1;
    }
    TagsBoundAll(store, id, old(store.nodeTags), old(store.tags), ts, TagIds(ts, uuid, next));
    r := Pass;
  }

  /** Before the tag loop, no tag is bound and none is created. */
  lemma TagsBoundStart(store: Store, id: Id, ts: seq<Tag>, ids: seq<Id>)
    requires store.Valid() && forall b :: b in store.nodeTags ==> b.nodeId != id
    ensures TagsBound(store, id, store.nodeTags, store.tags, ts[..0], ids[..0])
  {
    assert ts[..0] == [] && ids[..0] == [];
    assert Bindings(id, []) == {};
  }

  /** After the tag loop has bound every tag, the loop state speaks of all of them. */
  lemma TagsBoundAll(store: Store, id: Id, base: set<NodeTag>, before: map<Id, Tag>, ts: seq<Tag>, ids: seq<Id>)
    requires |ts| == |ids| && TagsBound(store, id, base, before, ts[..|ts|], ids[..|ts|])
    ensures Distinct(ids) && store.nodeTags == base + Bindings(id, ids) && Created(before, store.tags, ts, ids)
  {
    assert ts[..|ts|] == ts && ids[..|ts|] == ids;
  }

  /** Iteration `i` of the tag loop: the tag takes the next drawn id when it has none, and is
      created and bound. */
  method TagStep(store: Store, id: Id, ts: seq<Tag>, uuid: nat -> Id, next: nat, i: nat, k: nat,
                 ghost base: set<NodeTag>, ghost before: map<Id, Tag>) returns (r: Outcome, k': nat)
    requires i < |ts| && k == next + Empties(ts[..i])
    requires TagsBound(store, id, base, before, ts[..i], TagIds(ts, uuid, next)[..i])
    modifies store
    ensures store.Valid() && store.nodes == old(store.nodes)
    ensures forall a :: a in old(store.tags) ==> a in store.tags && store.tags[a] == old(store.tags)[a]
    ensures r.Fail? <==> !Distinct(TagIds(ts, uuid, next)[..i + 1])
    ensures OnlyBinds(old(store.nodeTags), store.nodeTags, id)
    ensures r.Pass? ==> k' == next + Empties(ts[..i + 1])
    ensures r.Pass? ==> TagsBound(store, id, base, before, ts[..i + 1], TagIds(ts, uuid, next)[..i + 1])
    ensures r.Fail? ==> TagIds(ts, uuid, next)[i] in TagIds(ts, uuid, next)[..i]
    ensures r.Fail? ==> TagsBound(store, id, base, before, ts[..i], TagIds(ts, uuid, next)[..i])
  {
    ghost var ids := TagIds(ts, uuid, next);
    var tag := ts[i];
    k' := k;
    if tag.id == "" {
      tag := tag.(id := uuid(k));
      k' := k + 1;
    }
    TagStepIds(ts, uuid, next, i, tag);
    r := BindOne(store, id, ts[i], tag, base, before, ts[..i], ids[..i]);
  }

  /** What iteration `i` of the tag loop adds to the prefixes of the tags and of their ids. */
  lemma TagStepIds(ts: seq<Tag>, uuid: nat -> Id, next: nat, i: nat, tag: Tag)
    requires i < |ts|
    requires tag == (if ts[i].id == "" then ts[i].(id := uuid(next + Empties(ts[..i]))) else ts[i])
    ensures tag == ts[i].(id := tag.id)
    ensures TagIds(ts, uuid, next)[i] == tag.id
    ensures TagIds(ts, uuid, next)[..i + 1] == TagIds(ts, uuid, next)[..i] + [tag.id]
    ensures ts[..i + 1] == ts[..i] + [ts[i]]
    ensures Distinct(TagIds(ts, uuid, next)[..i + 1]) <==>
              Distinct(TagIds(ts, uuid, next)[..i]) && tag.id !in TagIds(ts, uuid, next)[..i]
    ensures Empties(ts[..i + 1]) == Empties(ts[..i]) + (if ts[i].id == "" then 1 else 0)
  {
    var ids := TagIds(ts, uuid, next);
    TagIdsStep(ts, uuid, next, i);
    SliceSnoc(ids, i);
    SliceSnoc(ts, i);
    DistinctSnoc(ids[..i], ids[i]);
  }

  /** `after` holds the bindings of `before` and, beyond them, only bindings of `id`. */
  ghost predicate OnlyBinds(before: set<NodeTag>, after: set<NodeTag>, id: Id) {
    before <= after && forall b :: b in after ==> b in before || b.nodeId == id
  }

  /** The state of the tag loop after binding the tags `ts` under `ids`: the ids so far are
      distinct, node `id` is bound to exactly them on top of the other nodes' bindings `base`,
      and the tag table is `before` with the new tags created. */
  ghost predicate TagsBound(store: Store, id: Id, base: set<NodeTag>, before: map<Id, Tag>, ts: seq<Tag>, ids: seq<Id>)
    reads store, store.kv, store.content
  {
    && store.Valid() && |ts| == |ids| && Distinct(ids)
    && (forall b :: b in base ==> b.nodeId != id)
    && store.nodeTags == base + Bindings(id, ids)
    && Created(before, store.tags, ts, ids)
  }

  /** The tag loop stopped at tag `j`: the tags before it are bound and created as TagsBound
      says, and tag `j` drew an id an earlier tag already had, so its FirstOrCreate found that
      row and its binding hit the primary key. */
  ghost predicate TagsStopped(store: Store, id: Id, base: set<NodeTag>, before: map<Id, Tag>, ts: seq<Tag>, ids: seq<Id>, j: int)
    reads store, store.kv, store.content
  {
    && |ts| == |ids| && 0 < j < |ts|
    && ids[j] in ids[..j]
    && TagsBound(store, id, base, before, ts[..j], ids[..j])
  }

  /** One iteration of the tag loop: FirstOrCreate of the tag, then its binding to `id`, which
      fails exactly when an earlier tag was bound under the same id. */
  method BindOne(store: Store, id: Id, supplied: Tag, t: Tag, ghost base: set<NodeTag>, ghost before: map<Id, Tag>,
                 ghost ts: seq<Tag>, ghost ids: seq<Id>) returns (r: Outcome)
    requires TagsBound(store, id, base, before, ts, ids) && t == supplied.(id := t.id)
    modifies store
    ensures store.Valid() && store.nodes == old(store.nodes)
    ensures forall a :: a in old(store.tags) ==> a in store.tags && store.tags[a] == old(store.tags)[a]
    ensures r.Fail? <==> t.id in ids
    ensures r.Fail? ==> store.nodeTags == old(store.nodeTags) && TagsBound(store, id, base, before, ts, ids)
    ensures r.Pass? ==> TagsBound(store, id, base, before, ts + [supplied], ids + [t.id])
  {
    ghost var mid := store.tags;
    store.FirstOrCreateTag(t);
    r := store.CreateBinding(NodeTag(id, t.id));
    if r.Pass? {
      CreatedStep(before, mid, store.tags, ts, ids, supplied, t);
      assert Bindings(id, ids + [t.id]) == Bindings(id, ids) + {NodeTag(id, t.id)};
      DistinctSnoc(ids, t.id);
    } else {
      assert t.id in mid && store.tags == mid;
    }
  }

  /** One FirstOrCreate of a tag under an id not bound before keeps Created. */
  lemma CreatedStep(before: map<Id, Tag>, mid: map<Id, Tag>, after: map<Id, Tag>, ts: seq<Tag>, ids: seq<Id>, supplied: Tag, t: Tag)
    requires |ts| == |ids| && Created(before, mid, ts, ids) && t.id !in ids && t == supplied.(id := t.id)
    requires after == (if t.id in mid then mid else mid[t.id := t])
    ensures Created(before, after, ts + [supplied], ids + [t.id])
  {
    var ts' := ts + [supplied];
    var ids' := ids + [t.id];
    forall i | 0 <= i < |ids'| && ids'[i] !in before ensures after[ids'[i]] == ts'[i].(id := ids'[i]) {
      if i < |ids| {
        assert ids'[i] == ids[i] && ts'[i] == ts[i];
      }
    }
  }

  /** Writing one more cell keeps Written, with that cell's key now holding it. */
  lemma WrittenStep<R>(rows: map<RowKey, R>, id: Id, cells: map<string, R>, done: set<string>, d: string,
                       key: R -> string, own: (R, Id) -> R)
    requires Written(rows, id, cells, done, key, own) && d in cells
    ensures Written(rows[(id, key(cells[d])) := own(cells[d], id)], id, cells, done + {d}, key, own)
  {
    var rows' := rows[(id, key(cells[d])) := own(cells[d], id)];
    forall k | (id, k) in rows'
      ensures exists e :: e in done + {d} && e in cells && key(cells[e]) == k && rows'[(id, k)] == own(cells[e], id)
    {
      if k == key(cells[d]) {
        assert d in done + {d};
      } else {
        var e :| e in done && e in cells && key(cells[e]) == k && rows[(id, k)] == own(cells[e], id);
        assert e in done + {d};
      }
    }
  }

  /** `kvRepo.DeleteAll(id)`, then `kv.NodeId = id; kvRepo.Set(kv)` for every cell in map order. */
  method ReplaceCells(repo: KVRepository, id: Id, cells: map<string, KV>)
    requires repo.Valid()
    modifies repo
    ensures repo.Valid()
    ensures Without(repo.rows, id) == Without(old(repo.rows), id)
    ensures Written(repo.rows, id, cells, cells.Keys, KVKey, KVOwn)
  {
    repo.DeleteAll(id);
    var pending := cells.Keys;
    ghost var done: set<string> := {};
    while pending != {}
      invariant done + pending == cells.Keys && repo.Valid()
      invariant Without(repo.rows, id) == Without(old(repo.rows), id)
      invariant Written(repo.rows, id, cells, done, KVKey, KVOwn)
      decreases pending
    {
      var d :| d in pending;
      var kv := cells[d].(nodeId := id);
      assert KVOwn(cells[d], id) == kv && KVKey(cells[d]) == kv.key;
      WrittenStep(repo.rows, id, cells, done, d, KVKey, KVOwn);
      WithoutUpdate(repo.rows, id, kv.key, kv);
      repo.Set(kv);
      MoveKey(done, pending, d);
      done := done + {d};
      pending := pending - {d};
    }
  }

  /** `contentRepo.DeleteAll(id)`, then `content.NodeId = id; contentRepo.Save(content)` for
      every entry in map order. */
  method ReplaceContent(repo: ContentRepository, id: Id, contents: map<string, Content>)
    requires repo.Valid()
    modifies repo
    ensures repo.Valid()
    ensures Without(repo.rows, id) == Without(old(repo.rows), id)
    ensures Written(repo.rows, id, contents, contents.Keys, ContentKey, ContentOwn)
  {
    repo.DeleteAll(id);
    var pending := contents.Keys;
    ghost var done: set<string> := {};
    while pending != {}
      invariant done + pending == contents.Keys && repo.Valid()
      invariant Without(repo.rows, id) == Without(old(repo.rows), id)
      invariant Written(repo.rows, id, contents, done, ContentKey, ContentOwn)
      decreases pending
    {
      var d :| d in pending;
      var content := contents[d].(nodeId := id);
      assert ContentOwn(contents[d], id) == content && ContentKey(contents[d]) == content.key;
      WrittenStep(repo.rows, id, contents, done, d, ContentKey, ContentOwn);
      WithoutUpdate(repo.rows, id, content.key, content);
      repo.Save(content);
      MoveKey(done, pending, d);
      done := done + {d};
      pending := pending - {d};
    }
  }

  /** Writing a row of node `id` leaves the rows of every other node as they were. */
  lemma WithoutUpdate<R>(rows: map<RowKey, R>, id: Id, k: string, v: R)
    ensures Without(rows[(id, k) := v], id) == Without(rows, id)
  {
    assert Without(rows[(id, k) := v], id).Keys == Without(rows, id).Keys;
  }

  /** The five tables after `n` was saved under `id` with its tags bound under `tagIds`: the
      core record upserted, the node bound to exactly those tags, the missing tags created,
      and the node's cells and content replaced by the supplied ones; every other node's rows
      are as they were. */
  ghost predicate Replaced(before: Snapshot, after: Snapshot, n: Node, id: Id, tagIds: seq<Id>)
    requires |tagIds| == |n.tags|
  {
    && after.nodes == before.nodes[id := n.core.(id := id)]
    && after.nodeTags == Unbound(before.nodeTags, id) + Bindings(id, tagIds)
    && Created(before.tags, after.tags, n.tags, tagIds)
    && Without(after.kvRows, id) == Without(before.kvRows, id)
    && Written(after.kvRows, id, n.kv, n.kv.Keys, KVKey, KVOwn)
    && Without(after.contentRows, id) == Without(before.contentRows, id)
    && Written(after.contentRows, id, n.content, n.content.Keys, ContentKey, ContentOwn)
  }

  /** What a read of node `id` sees after the save: the saved core record, a binding to
      each tag id and no other, and, for self-keyed cell and content maps, exactly the supplied
      entries owned by `id`, whatever the node held before. */
  lemma SavedNodeReadsBack(before: Snapshot, after: Snapshot, n: Node, id: Id, tagIds: seq<Id>)
    requires |tagIds| == |n.tags| && Replaced(before, after, n, id, tagIds)
    ensures id in after.nodes && after.nodes[id] == n.core.(id := id)
    ensures forall b :: b in after.nodeTags && b.nodeId == id <==> b.nodeId == id && b.tagId in tagIds
    ensures forall a :: a in tagIds ==> a in after.tags
    ensures SelfKeyed(n.kv, KVKey) ==> RowsOf(after.kvRows, id) == Stamped(n.kv, id, KVOwn)
    ensures SelfKeyed(n.content, ContentKey) ==> RowsOf(after.contentRows, id) == Stamped(n.content, id, ContentOwn)
  {
    BoundExactly(before.nodeTags, after.nodeTags, id, tagIds);
    ReadsBackCells(after.kvRows, id, n.kv, KVKey, KVOwn);
    ReadsBackCells(after.contentRows, id, n.content, ContentKey, ContentOwn);
  }

  /** After the old bindings of `id` are replaced, `id` is bound to exactly the new tag ids. */
  lemma BoundExactly(before: set<NodeTag>, after: set<NodeTag>, id: Id, tagIds: seq<Id>)
    requires after == Unbound(before, id) + Bindings(id, tagIds)
    ensures forall b :: b in after && b.nodeId == id <==> b.nodeId == id && b.tagId in tagIds
  {
    forall b | b in after && b.nodeId == id ensures b.tagId in tagIds {
      assert b !in Unbound(before, id);
    }
  }

  lemma ReadsBackCells<R>(rows: map<RowKey, R>, id: Id, cells: map<string, R>, key: R -> string, own: (R, Id) -> R)
    requires Written(rows, id, cells, cells.Keys, key, own)
    ensures SelfKeyed(cells, key) ==> RowsOf(rows, id) == Stamped(cells, id, own)
  {
    if SelfKeyed(cells, key) {
      CellsWrittenExactly(rows, id, cells, key, own);
    }
  }

  /** The tables after the write sequence stopped at tag `j`, whose id repeats an earlier
      tag's: the core record is upserted, node `id` is bound to exactly the tags before `j` (its
      earlier bindings are gone), those tags are created, and the cells are untouched. */
  ghost predicate Stopped(before: Snapshot, after: Snapshot, n: Node, id: Id, tagIds: seq<Id>, j: int)
    requires |tagIds| == |n.tags|
  {
    && 0 < j < |tagIds| && Distinct(tagIds[..j]) && tagIds[j] in tagIds[..j]
    && after.nodes == before.nodes[id := n.core.(id := id)]
    && after.nodeTags == Unbound(before.nodeTags, id) + Bindings(id, tagIds[..j])
    && Created(before.tags, after.tags, n.tags[..j], tagIds[..j])
    && after.kvRows == before.kvRows && after.contentRows == before.contentRows
  }

  /** The tag loop that stopped, run after the core upsert and the deletion of the node's
      bindings, leaves the tables Stopped. */
  lemma StoppedOf(store: Store, before: Snapshot, mid: Snapshot, n: Node, id: Id, ids: seq<Id>)
    requires exists j :: TagsStopped(store, id, mid.nodeTags, mid.tags, n.tags, ids, j)
    requires mid.nodeTags == Unbound(before.nodeTags, id) && mid.tags == before.tags
    requires store.nodes == before.nodes[id := n.core.(id := id)]
    requires store.kv.rows == before.kvRows && store.content.rows == before.contentRows
    ensures exists j :: Stopped(before, store.State(), n, id, ids, j)
  {
    var j :| TagsStopped(store, id, mid.nodeTags, mid.tags, n.tags, ids, j);
    assert Stopped(before, store.State(), n, id, ids, j);
  }

  /** The write sequence Save runs on the node the mapper produced: id assignment, core
      upsert, binding replacement, then cells and content. It stops at the first failure (a
      duplicate binding), leaving what was written so far. */
  method WriteNode(store: Store, n: Node, uuid: nat -> Id) returns (r: Outcome, id: Id)
    requires store.Valid()
    modifies store, store.kv, store.content
    ensures store.Valid()
    ensures id == NodeIdFor(n.core, uuid)
    ensures FreshIds(uuid, old(store.nodes).Keys) && n.core.id == "" ==> id !in old(store.nodes) && id != ""
    ensures store.nodes == old(store.nodes)[id := n.core.(id := id)]
    ensures Unbound(store.nodeTags, id) == Unbound(old(store.nodeTags), id)
    ensures r.Fail? <==> !Distinct(TagIds(n.tags, uuid, CoreDraws(n.core)))
    ensures r.Fail? ==> store.kv.rows == old(store.kv.rows) && store.content.rows == old(store.content.rows)
    ensures r.Pass? ==> Replaced(old(store.State()), store.State(), n, id, TagIds(n.tags, uuid, CoreDraws(n.core)))
    ensures r.Fail? ==> exists j :: Stopped(old(store.State()), store.State(), n, id, TagIds(n.tags, uuid, CoreDraws(n.core)), j)
  {
    id := n.core.id;
    var next := 0;
    if id == "" {
      id := uuid(0);
      next := 1;
    }
    store.SaveCore(n.core.(id := id));
    store.DeleteBindings(id);
    ghost var mid := store.State();
    r := BindTags(store, id, n.tags, uuid, next);
    assert Unbound(store.nodeTags, id) == Unbound(old(store.nodeTags), id);
    if r.Fail? {
      StoppedOf(store, old(store.State()), mid, n, id, TagIds(n.tags, uuid, next));
      return;
    }
    ReplaceCells(store.kv, id, n.kv);
    ReplaceContent(store.content, id, n.content);
  }

  /** The node the registered mapper makes of `model`: the lookup error, the mapper's
      conversion error, or the node. */
  function NodeOf(byType: map<TypeName, ErasedMapper>, t: TypeName, model: Payload): (r: Result<Node>)
    ensures t !in byType ==> r == Err(NoMapper(t))
    ensures t in byType && byType[t].typ == t ==> r == byType[t].mapper.toNode(model)
  {
    match Lookup(byType, t)
    case Err(e) => Err(e)
    case Ok(m) => m.ToNode(Any(t, model))
  }

  /** Save[T]: one transaction that converts `model` with the mapper registered for `t` and
      writes the node (WriteNode). A failure at any step rolls every table back. */
  method Save(store: Store, reg: MapperRegistry, t: TypeName, model: Payload, uuid: nat -> Id) returns (r: Outcome)
    requires store.Valid() && reg.Valid()
    modifies store, store.kv, store.content
    ensures store.Valid()
    ensures NodeOf(reg.byType, t, model).Err? ==> r == Fail(NodeOf(reg.byType, t, model).error)
    ensures r.Fail? <==> NodeOf(reg.byType, t, model).Err? ||
                         !Distinct(TagIds(NodeOf(reg.byType, t, model).value.tags, uuid, CoreDraws(NodeOf(reg.byType, t, model).value.core)))
    ensures r.Fail? ==> store.State() == old(store.State())
    ensures r.Pass? ==> Saved(old(store.State()), store.State(), NodeOf(reg.byType, t, model).value, uuid)
  {
    var mapper := reg.ForType(t);
    if mapper.Err? {
      return Fail(mapper.error);
    }
    var node := mapper.value.ToNode(Any(t, model));
    if node.Err? {
      return Fail(node.error);
    }
    var before := store.State();
    var id;
    r, id := WriteNode(store, node.value, uuid);
    if r.Fail? {
      store.Restore(before);
    }
  }

  /** The tables after a committed Save of `n`, with the ids drawn from `uuid`. */
  ghost predicate Saved(before: Snapshot, after: Snapshot, n: Node, uuid: nat -> Id) {
    var tagIds := TagIds(n.tags, uuid, CoreDraws(n.core));
    Replaced(before, after, n, NodeIdFor(n.core, uuid), tagIds)
  }

  /** Where a committed Save puts the node: under its own id, or under a fresh id that no
      stored node had; every tag it carried with an id is stored. */
  lemma SaveStoresNode(before: Snapshot, after: Snapshot, n: Node, uuid: nat -> Id)
    requires Saved(before, after, n, uuid)
    ensures n.core.id != "" ==> after.nodes == before.nodes[n.core.id := n.core]
    ensures n.core.id == "" && FreshIds(uuid, before.nodes.Keys) ==>
              uuid(0) !in before.nodes && after.nodes == before.nodes[uuid(0) := n.core.(id := uuid(0))]
    ensures forall i :: 0 <= i < |n.tags| && n.tags[i].id != "" ==> n.tags[i].id in after.tags
  {
    var tagIds := TagIds(n.tags, uuid, CoreDraws(n.core));
    TagIdsSpec(n.tags, uuid, CoreDraws(n.core));
    assert Created(before.tags, after.tags, n.tags, tagIds);
    if n.core.id != "" {
      assert n.core.(id := n.core.id) == n.core;
    }
  }

  /** What a read sees after a committed Save: the node is bound to exactly the tags it
      carried, its self-keyed cells are exactly the supplied ones, and the bindings and cells
      of every other node are as they were. */
  lemma SaveReadsBack(before: Snapshot, after: Snapshot, n: Node, uuid: nat -> Id)
    requires Saved(before, after, n, uuid)
    ensures forall b :: b in after.nodeTags && b.nodeId == NodeIdFor(n.core, uuid) <==>
              b.nodeId == NodeIdFor(n.core, uuid) && b.tagId in TagIds(n.tags, uuid, CoreDraws(n.core))
    ensures forall b :: b in after.nodeTags && b.nodeId != NodeIdFor(n.core, uuid) <==>
              b in before.nodeTags && b.nodeId != NodeIdFor(n.core, uuid)
    ensures SelfKeyed(n.kv, KVKey) ==>
              RowsOf(after.kvRows, NodeIdFor(n.core, uuid)) == Stamped(n.kv, NodeIdFor(n.core, uuid), KVOwn)
    ensures Without(after.kvRows, NodeIdFor(n.core, uuid)) == Without(before.kvRows, NodeIdFor(n.core, uuid))
  {
    var id := NodeIdFor(n.core, uuid);
    var tagIds := TagIds(n.tags, uuid, CoreDraws(n.core));
    SavedNodeReadsBack(before, after, n, id, tagIds);
  }

  /** The values the nodes of a fetch map to: the fetch error, the lookup error, or the
      first mapping error. */
  function ListOutcome(fetched: Result<seq<Node>>, byType: map<TypeName, ErasedMapper>, t: TypeName): Result<seq<Payload>> {
    match fetched
    case Err(e) => Err(e)
    case Ok(nodes) =>
      match Lookup(byType, t)
      case Err(e) => Err(e)
      case Ok(m) => Traverse(nodes, Trees.Mapped(m, t))
  }

  /** ListAs[T] on the result of `q.fetchNodes()`: maps every node in order, stopping at the
      first error. */
  method ListAs(fetched: Result<seq<Node>>, reg: MapperRegistry, t: TypeName) returns (r: Result<seq<Payload>>)
    requires reg.Valid()
    ensures r == ListOutcome(fetched, reg.byType, t)
  {
    if fetched.Err? {
      return Err(fetched.error);
    }
    var nodes := fetched.value;
    var mapper := reg.ForType(t);
    if mapper.Err? {
      return Err(mapper.error);
    }
    r := MapEach(mapper.value, t, nodes);
  }

  /** The loop of ListAs: `mapper.fromNode(n)` and the `v.(*T)` assertion for every node in
      order, appending to `out` and returning at the first error. */
  method MapEach(m: ErasedMapper, t: TypeName, nodes: seq<Node>) returns (r: Result<seq<Payload>>)
    ensures r == Traverse(nodes, Trees.Mapped(m, t))
  {
    var out: seq<Payload> := [];
    var i := 0;
    while i < |nodes|
      invariant 0 <= i <= |nodes|
      invariant Traverse(nodes[..i], Trees.Mapped(m, t)) == Ok(out)
    {
      var n := nodes[i];
      SliceSnoc(nodes, i);
      TraverseSnoc(nodes[..i], n, Trees.Mapped(m, t));
      var v := m.FromNode(n);
      if v.Err? {
        TraversePrefixError(nodes, i + 1, Trees.Mapped(m, t));
        return Err(v.error);
      }
      if v.value.typ != t {
        TraversePrefixError(nodes, i + 1, Trees.Mapped(m, t));
        return Err(UnexpectedType(t, v.value.typ));
      }
      out := out + [v.value.payload];
      i := i + 1;
    }
    assert nodes[..i] == nodes;
    r := Ok(out);
  }

  /** ListAs yields one value per fetched node, in order, each the registered fromNode of its
      node, exactly when every node maps; a fetch error or a missing mapper is passed on. */
  lemma ListAsMeaning(fetched: Result<seq<Node>>, byType: map<TypeName, ErasedMapper>, t: TypeName)
    requires forall u :: u in byType ==> byType[u].typ == u
    ensures fetched.Err? ==> ListOutcome(fetched, byType, t) == Err(fetched.error)
    ensures fetched.Ok? && t !in byType ==> ListOutcome(fetched, byType, t) == Err(NoMapper(t))
    ensures fetched.Ok? && t in byType ==>
              (ListOutcome(fetched, byType, t).Ok? <==>
                 forall i :: 0 <= i < |fetched.value| ==> byType[t].mapper.fromNode(fetched.value[i]).Ok?)
    ensures fetched.Ok? && ListOutcome(fetched, byType, t).Ok? ==>
              |ListOutcome(fetched, byType, t).value| == |fetched.value| &&
              forall i :: 0 <= i < |fetched.value| ==>
                ListOutcome(fetched, byType, t).value[i] == byType[t].mapper.fromNode(fetched.value[i]).value
  {
    if fetched.Ok? && t in byType {
      TraverseOk(fetched.value, Trees.Mapped(byType[t], t));
    }
  }

  /** FirstAs[T]: sets the query's limit to 1, lists, and returns the first value, NotFound
      when there is none. */
  method FirstAs(q: NodeQueries.NodeQuery, fetchNodes: NodeQueries.QueryState -> Result<seq<Node>>, reg: MapperRegistry, t: TypeName)
    returns (r: Result<Payload>)
    requires reg.Valid()
    modifies q
    ensures q.State() == old(q.State()).(limit := 1)
    ensures ListOutcome(fetchNodes(q.State()), reg.byType, t).Err? ==> r == Err(ListOutcome(fetchNodes(q.State()), reg.byType, t).error)
    ensures ListOutcome(fetchNodes(q.State()), reg.byType, t) == Ok([]) ==> r == Err(NotFound)
    ensures ListOutcome(fetchNodes(q.State()), reg.byType, t).Ok? && ListOutcome(fetchNodes(q.State()), reg.byType, t).value != [] ==>
              r == Ok(ListOutcome(fetchNodes(q.State()), reg.byType, t).value[0])
  {
    var limited := q.Limit(1);
    var items := ListAs(fetchNodes(limited.State()), reg, t);
    if items.Err? {
      return Err(items.error);
    }
    if |items.value| == 0 {
      return Err(NotFound);
    }
    r := Ok(items.value[0]);
  }
}
