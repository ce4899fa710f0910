# nod: a forest-of-nodes store, modelled in Dafny

`nod` keeps application objects as generic node records in five tables:

- `nodes`: an id, an optional parent id, a namespace, type, kind, status, name and metadata;
- `tags`: tag rows;
- `node_tags`: the bindings between nodes and tags;
- `kvs`: typed key/value cells;
- `contents`: free-form content strings.

A registry maps each domain type to a `NodeMapper`, which converts a domain value to a node aggregate and back. On top of that sit:

- query builders: a WHERE chain, an offset/limit window and eager loading of tags and cells;
- tree builders: they turn a flat fetched list of records into a typed tree;
- repositories: they save a node by replacing its record, bindings, cells and content completely, and delete a node only when it has no children.

Each core Go file is one Dafny module, over shared record datatypes (`Records`):

| Go file | Dafny file, module |
|---|---|
| tree_typed.go | tree_typed.dfy, `Trees` |
| typedquery.go | typedquery.dfy, `TypedQueries` |
| query.go | query.dfy, `NodeQueries` |
| repository_typed_ops.go | typed_ops.dfy, `TypedOps` |
| typedrepository.go | typedrepository.dfy, `TypedRepositories` |
| kv.go | kv.dfy, `KVStore` |
| content.go | content.dfy, `ContentStore` |
| mapper_registry.go | mapper_registry.dfy, `MapperRegistries` |

Shared pieces:

- `Results`: Option, Result and Error; `Traverse`, the map-until-first-error of every Go loop that returns on `err`; `Filter`.
- `Tables`: grouping of `(nodeId, key)`-keyed rows.
- `Paging`: the offset/limit window both builders use.
- `Storage`: the five tables as one class.

The code is imperative, and so is the model:

- The tree builders fill an id-keyed map of `TypedTreeNode` objects and append to their `children` fields in place. The methods are proved against the functions `DescendantOutcome`, `AncestorOutcome` and `ChildIds`.
- The repositories are methods on a `Store` class. Each GORM statement is a method whose whole effect on the tables is stated. Save is proved to leave exactly the `Replaced` state.
- The query builders are classes whose setters update fields. `FindAll` eager-loads into an array in place.
- Filters and windows are pure functions, with lemmas saying what each admits.

How the code's inputs appear in the model:

- Go `any` holding a `*T` is `Any(typ, payload)`. A type parameter `T` is its type name.
- `uuid.New()` is the parameter `uuid: nat -> Id`. Its k-th call returns `uuid(k)`. `FreshIds` states what Save relies on: the ids are non-empty, pairwise distinct and unused.
- Go map iteration happens in no fixed order. The model takes an arbitrary element at each step (`:|`), so every contract holds for every order.
- The storage engine's statements are parameters:
  - `fetchNodes`, `fetchDescendantNodes`, `fetchAncestorNodes`;
  - `q.List`, `q.First`, `q.buildTree`, `q.buildAncestorTree`;
  - `loadTagsByNode`, the tag join of `Find`;
  - the node table in the order the SELECT returns it.
- `ApplyStringFilter` and `ApplyTimeFilter` are uninterpreted matchers (`Matchers`).

Where the code and the system's design description differ, the model follows the code:

- The description says `Clone()` produces an independent copy. The code's copy shares the `*NodeQuery`.
- The description says `Descendants(true)` builds one tree per root. The code's condition `!onlyRoots && isRoot` builds none.
- The description says an ancestor tree's root is the unique member with no parent. The code takes the last such member in input order (`LastRootId`).
- The description calls every Save atomic. `TRepository.Save` writes on `r.Db` outside its transaction, so on a repository over a plain database handle a failed Save keeps its earlier writes.
- Delete leaves a node's content rows in place. The model states this as the code's behaviour (`Deleted`, `DeleteReadsBack`).

## Model

| member | source | states |
|---|---|---|
| Records.ParentKey | tree_typed.go:105-108 | a record is attached under a parent exactly when its parent id is set and non-empty, and then under that id |
| MapperRegistries.ErasedMapper.ToNode | mapper_registry.go:17-23 | a value whose dynamic type is not `*T` is rejected with a type error; any other value goes to the wrapped ToNode |
| MapperRegistries.ErasedMapper.FromNode | mapper_registry.go:25-27 | succeeds exactly when the wrapped FromNode does, with its result boxed as a `*T`, and passes its error on otherwise |
| MapperRegistries.ErasedRoundTrip | mapper_registry.go:17-27 | a value the erased fromNode produced always passes the erased toNode's type check, so the erased pair converts as the typed pair does |
| MapperRegistries.Lookup | mapper_registry.go:45-51 | fails exactly when nothing is registered for the type, with "no mapper registered"; otherwise yields the registered mapper |
| MapperRegistries.LookupEmpty | mapper_registry.go:33-37 | on a new registry every lookup fails |
| MapperRegistries.LookupAfterRegister | mapper_registry.go:39-43 | after registering T, looking T up yields the new mapper (overwriting any earlier one), and every other type's lookup is unchanged |
| MapperRegistries.MapperRegistry.constructor | mapper_registry.go:33-37 | a new registry has no entries |
| MapperRegistries.MapperRegistry.ForType | mapper_registry.go:45-51 | the lookup on the registry's table; a found mapper is the one registered under that very type |
| MapperRegistries.RegisterMapper | mapper_registry.go:39-43 | the table gains (or replaces) the entry for T, the same registry is returned, T now yields the new mapper and every other type's lookup is as before |
| KVStore.KVRepository.Set | kv.go:24-26 | an upsert on (NodeId, Key); every other pair keeps its row |
| KVStore.KVRepository.Get | kv.go:28-34 | succeeds exactly when the pair has a row, returning that row; NotFound otherwise |
| KVStore.KVRepository.GetAll | kv.go:36-50 | the result has exactly the keys of the node's rows, each holding its row, whose Key is its map key, in whatever order the rows arrive |
| KVStore.KVRepository.GetAllForNodes | kv.go:52-69 | the result groups exactly the rows of the listed nodes: `r[n][k]` exists iff row (n, k) exists with n listed; a node without rows is absent; each inner value has NodeId n and Key k |
| KVStore.KVRepository.DeleteAll | kv.go:71-73 | removes every row of the node and no other row |
| KVStore.KVRepository.Delete | kv.go:75-77 | removes that one pair only |
| ContentStore.ContentRepository.GetAllForNodes | content.go:21-38 | as the key/value bulk load: exactly the listed nodes' rows, grouped by node then key, nodes without rows absent |
| ContentStore.ContentRepository.Save | content.go:40-42 | an upsert on (NodeId, Key) |
| ContentStore.ContentRepository.DeleteAll | content.go:44-46 | removes every row of the node and no other row |
| ContentStore.ContentToStringMap | content.go:48-56 | keeps exactly the keys whose Value is set, each mapped to that value; the domain is a subset of the input's |
| ContentStore.StringMapToContent | content.go:58-67 | one entry per key with that key, that value and an empty owner |
| ContentStore.StringMapRoundTrip | content.go:48-67 | converting a string map to content and back gives it again |
| ContentStore.ContentRoundTrip | content.go:48-67 | content converted to strings and back is unchanged exactly when it is canonical; otherwise owners, timestamps, mismatched keys or nil values are lost |
| Tables.Grouped | kv.go:52-69 | the grouping a bulk load returns: a listed node with rows maps to exactly its rows by key; no other node appears |
| Tables.GroupsExactlyAll | kv.go:62-68 | once every row of the listed nodes has been taken, the map built row by row is that grouping |
| Paging.WindowCases | typedquery.go:178-184 | a positive page and page size give offset `(page-1)*pageSize` and limit `pageSize`, overriding the flat limit; otherwise offset 0 and a limit only when `limit > 0` |
| Paging.Paginate | typedquery.go:181-184 | the selected rows are a contiguous run starting at the offset, at most `limit` long, and all remaining rows when there is no limit |
| Paging.WindowSelects | query.go:76-83 | a page selects exactly rows `(page-1)*pageSize` up to `page*pageSize`, cut to the rows there are; a flat limit selects exactly the first `limit` rows (all, if fewer); with neither, every row is selected |
| Trees.TypedTreeNode.constructor | tree_typed.go:95 | a new entry holds the mapped value and no children |
| Trees.MapOne | tree_typed.go:87-94 | a mapper error is passed on; a mapped value of the wrong dynamic type gives the "mapper returned" error; otherwise the value |
| Trees.LastIndexOf | tree_typed.go:86-96 | the entry stored for an id is that of the last record with that id; no later record has it |
| Trees.StageCases | tree_typed.go:74-96 | an empty list fails with NotFound whatever is registered; a missing mapper fails with the lookup error; otherwise the build goes on exactly when every record maps, with the mapped values in input order |
| Trees.LastRootIdSpec | tree_typed.go:146-151 | the ancestor root is a record with nil or "" parent after which no such record follows; there is none exactly when no record is a root |
| Trees.IndexByID | tree_typed.go:84-96 | the first loop maps every record and stores a fresh, childless entry under its id, holding the last record's value per id; the first mapping or type error aborts it |
| Trees.IndexedSnoc | tree_typed.go:95 | storing a new entry for one more record keeps the table indexed by the longer list |
| Trees.KeepChildren | tree_typed.go:105-107 | a record with nil or "" parent adds no child link |
| Trees.LinkRecord | tree_typed.go:105-111 | after one record is processed, every entry's children are the entries of its child ids so far |
| Trees.AttachToParent | tree_typed.go:108-111 | a record with a parent id is appended to that parent's children when the parent has an entry; nothing else changes |
| Trees.LinkStep | tree_typed.go:100-112 | one pass of the second loop: the children stay linked, and the kept root is the entry of `rootID` once a record with that id has been seen |
| Trees.LinkUnderRoot | tree_typed.go:98-112 | every entry's children are exactly the entries of the records whose parent id is that entry's id, in input order; a root is found exactly when some record has id `rootID`, and it is that id's entry |
| Trees.BuildTreeFromNodes | tree_typed.go:74-118 | NotFound on an empty list before the mapper is consulted; the lookup or first mapping error aborts with no tree; otherwise the result's value is that of the last record with id `rootID` (NotFound if none), and every entry is linked to its children |
| Trees.LinkUnderLastRoot | tree_typed.go:144-156 | as LinkUnderRoot, with the kept root the entry of the last record with nil or "" parent |
| Trees.BuildAncestorTreeFromNodes | tree_typed.go:120-162 | as buildTreeFromNodes, but the root is the last record with nil or "" parent, and NotFound when there is none |
| Trees.ChildIdsWithin | tree_typed.go:108-111 | only input records are attached as children |
| Trees.ChildIdsAppend | tree_typed.go:100-112 | child lists keep input order: the children contributed by a later part of the input follow those of an earlier part |
| Trees.AbsentNotChild | tree_typed.go:108-111 | an id no record carries is in no child list |
| Trees.ChildIdsOccurrences | tree_typed.go:100-112 | with unique ids, a record occurs exactly once in the child list of its parent and in no other |
| Trees.NeverAttached | tree_typed.go:105-111 | a record with nil or "" parent is attached nowhere; with unique ids a record whose parent is not in the input is attached to no entry |
| Trees.DescendantsSelection | tree_typed.go:55-58 | DescendantsAs(false) selects every fetched record; DescendantsAs(true) exactly those with nil or "" parent; both keep input order |
| Trees.DescendantTreeAs | tree_typed.go:40-46 | the fetch error, or what buildTreeFromNodes yields on the fetched descendants: the root value, and a returned tree is the entry of `rootID` in an id table where every fetched record is mapped and linked under its parent (`DescendantTree`) |
| Trees.AncestorTreeAs | tree_typed.go:15-21 | the fetch error, or what buildAncestorTreeFromNodes yields on the fetched ancestors: the root value, and a returned tree is the entry of the last nil-or-"" parent record in an id table where every fetched record is linked under its parent (`AncestorTree`) |
| Trees.DescendantsAs | tree_typed.go:48-66 | the fetch error, or one tree per selected record in input order, the j-th being the fully linked descendant tree of the j-th selected record (`DescendantTrees`); the first error aborts with no partial list |
| Trees.DescendantsLoop | tree_typed.go:54-65 | the loop over the fetched records stops with exactly the error the specification's traversal of the selected records yields, or ends with one linked descendant tree per selected record, in order |
| Trees.DescendantStep | tree_typed.go:54-65 | one pass of the loop: an unselected record is skipped; a selected one gets its linked descendant tree appended, or the loop stops with the error the specification yields |
| Trees.AncestorStep | tree_typed.go:30-36 | one pass of the loop: the record's linked ancestor tree is appended, or the loop stops with the error the specification yields |
| Trees.AncestorsAs | tree_typed.go:23-38 | the fetch error, or exactly one ancestor tree per fetched record, in order, the j-th being the fully linked ancestor tree of the j-th record (`AncestorTrees`); the first error aborts |
| TypedQueries.SatisfiesEvery | typedquery.go:135-170 | a chain of Where calls admits a record exactly when each condition does |
| TypedQueries.WhenMeaning | typedquery.go:136-150 | `if cond { db = db.Where(w) }` adds the condition exactly when `cond` holds |
| TypedQueries.RootFiltersMeaning | typedquery.go:136-144 | the id list (when non-empty), Roots and ExcludeRoot conditions as what a record must meet |
| TypedQueries.TreeFiltersMeaning | typedquery.go:136-150 | the membership and root conditions constrain exactly their own fields; an empty id, parent or namespace list imposes none |
| TypedQueries.ColumnFiltersMeaning | typedquery.go:151-168 | each set string or time filter must match its column; an unset one imposes nothing |
| TypedQueries.DateFiltersMeaning | typedquery.go:163-168 | the created and updated date filters, when set, must match |
| TypedQueries.CommonFiltersMeaning | typedquery.go:135-170 | a record passes TApplyCommonFilters exactly when it meets every active filter, in both directions |
| TypedQueries.RootsAndExcludeRoot | typedquery.go:139-144 | a "" parent passes both Roots and ExcludeRoot; a nil parent passes Roots only; any other parent passes ExcludeRoot only |
| TypedQueries.CorrectedExcludeRoot | typedquery.go:142-144 | with ExcludeRoot as the complement of Roots, both flags together admit nothing; without ExcludeRoot the corrected chain admits what the written one does |
| TypedQueries.CorrectedRootsExcluded | typedquery.go:139-144 | the corrected chain with both Roots and ExcludeRoot set admits no record |
| TypedQueries.ApplyConditionsSpec | typedquery.go:172-187 | every row returned meets every active filter and is an input row; a page returns exactly filtered rows `(page-1)*pageSize` up to `page*pageSize`, cut to the rows there are; without a page, exactly the first `limit` filtered rows when `limit` is positive, and all filtered rows otherwise |
| TypedQueries.Graft | typedquery.go:254-271 | the tree-build error, the mapper's error, or a typed root with the untyped children as built |
| TypedQueries.GraftOne | typedquery.go:232-245 | one loop step: build the tree for the id, map its root, keep its children |
| TypedQueries.GraftEach | typedquery.go:230-249 | one grafted tree per selected record, in order; the first error aborts with no partial list |
| TypedQueries.DescendantsSelectionAsWritten | typedquery.go:230-231 | as written, `Descendants(true)` selects nothing and `Descendants(false)` selects exactly the roots |
| TypedQueries.SelectAll | typedquery.go:281 | Ancestors selects every listed record |
| TypedQueries.NodeQuery.constructor | typedquery.go:27 | a new query has no filter, no eager load and no window |
| TypedQueries.TypedQuery.constructor | typedquery.go:25-30 | the wrapper holds the query and the mapper |
| TypedQueries.TypedQuery.Clone | typedquery.go:32-38 | the copy shares `q` with the original; the slice copies leave the shared state as it was |
| TypedQueries.TypedQuery.CloneCorrected | typedquery.go:32-38 | the copy gets its own query state, equal to the original's |
| TypedQueries.SetterThroughClone | typedquery.go:32-43 | as written, Roots() on a clone sets `onlyRoots` in the original's query |
| TypedQueries.SetterOnCorrectedClone | typedquery.go:32-43 | with the corrected clone, Roots() on the clone leaves the original unchanged |
| TypedQueries.TypedQuery.Roots | typedquery.go:40-43 | sets only `onlyRoots` and returns the same query |
| TypedQueries.TypedQuery.ExcludeRoot | typedquery.go:45-48 | sets only `excludeRoot` and returns the same query |
| TypedQueries.TypedQuery.NodeIds | typedquery.go:65-68 | sets only the id list and returns the same query |
| TypedQueries.TypedQuery.ParentIds | typedquery.go:70-73 | sets only the parent id list and returns the same query |
| TypedQueries.TypedQuery.NamespaceIds | typedquery.go:75-78 | sets only the namespace id list and returns the same query |
| TypedQueries.TypedQuery.Tags | typedquery.go:80-83 | sets only the tag eager-load flag |
| TypedQueries.TypedQuery.KV | typedquery.go:85-88 | sets only the key/value eager-load flag |
| TypedQueries.TypedQuery.Content | typedquery.go:90-93 | sets only the content eager-load flag |
| TypedQueries.TypedQuery.Limit | typedquery.go:95-98 | sets only the flat limit |
| TypedQueries.TypedQuery.Page | typedquery.go:100-103 | sets only page and page size |
| TypedQueries.TypedQuery.Name | typedquery.go:105-108 | sets only the name filter, to the pointer given (nil clears it) |
| TypedQueries.TypedQuery.Type | typedquery.go:110-113 | sets only the type filter, to the pointer given (nil clears it) |
| TypedQueries.TypedQuery.Kind | typedquery.go:115-118 | sets only the kind filter, to the pointer given (nil clears it) |
| TypedQueries.TypedQuery.Status | typedquery.go:120-123 | sets only the status filter, to the pointer given (nil clears it) |
| TypedQueries.TypedQuery.CreatedDate | typedquery.go:125-128 | sets only the created-date filter, to the pointer given (nil clears it) |
| TypedQueries.TypedQuery.UpdatedDate | typedquery.go:130-133 | sets only the updated-date filter, to the pointer given (nil clears it) |
| TypedQueries.TypedQuery.List | typedquery.go:189-204 | the list error, or one mapped value per listed node in order; the first mapping error aborts with no partial result |
| TypedQueries.TypedQuery.First | typedquery.go:206-216 | the query's error, or the mapping of the first node |
| TypedQueries.TypedQuery.Descendants | typedquery.go:222-252 | as written: one grafted tree per listed record that `!onlyRoots && isRoot` picks, so `Descendants(true)` is always empty |
| TypedQueries.TypedQuery.DescendantsCorrected | typedquery.go:222-252 | as intended: a grafted tree for every listed root, in order, for both values of `onlyRoots`; for `false` exactly what the code builds |
| TypedQueries.CorrectedSelection | typedquery.go:230-231 | the intended selection is exactly the roots, and equals the code's selection for `Descendants(false)` |
| TypedQueries.TypedQuery.Ancestors | typedquery.go:273-300 | one grafted ancestor tree per listed record, in order; the first error aborts |
| NodeQueries.ChainMeaning | query.go:64-74 | a record passes the chain of `Where` calls that Find and FindAll build exactly when it meets every set filter, in both directions |
| NodeQueries.EmptyIdMeaning | query.go:24-37 | `Id("")` removes the id constraint, while `ParentId("")` and `NamespaceId("")` constrain the column to "", excluding NULL |
| NodeQueries.NodeQuery.constructor | query.go:18-22 | every field at its zero value |
| NodeQueries.NodeQuery.Id | query.go:24-27 | changes only the node id and returns the same query |
| NodeQueries.NodeQuery.ParentId | query.go:29-32 | changes only the parent id, to a constraint on the value given |
| NodeQueries.NodeQuery.NamespaceId | query.go:34-37 | changes only the namespace id, to a constraint on the value given |
| NodeQueries.NodeQuery.Tags | query.go:39-42 | sets only the tag eager-load flag and returns the same query |
| NodeQueries.NodeQuery.KV | query.go:44-47 | sets only the key/value eager-load flag and returns the same query |
| NodeQueries.NodeQuery.Limit | query.go:49-52 | changes only the limit |
| NodeQueries.NodeQuery.Page | query.go:54-58 | changes only page and page size |
| NodeQueries.NodeQuery.Find | query.go:60-110 | NotFound exactly when the filtered window is empty; otherwise the first row, meeting every filter, with its tags and cells attached only when asked for |
| NodeQueries.NodeQuery.FindAll | query.go:113-168 | as many nodes as the window selects, in order, each meeting every filter, with tags and cells attached only as the flags ask |
| NodeQueries.EagerLoad | query.go:142-165 | eager loading keeps the length and order of the result and sets only the tags and cells of each entry |
| NodeQueries.LoadKV | query.go:152-165 | each node gets exactly the cells `GetAll` would return for it, none when it has none, and nothing else changes |
| NodeQueries.IdsOf | query.go:153-156 | a new slice of the same length holding each node's id at its position |
| NodeQueries.AttachTags | query.go:147-149 | only the tags of each entry change, to its entry in the map or none |
| NodeQueries.AttachKV | query.go:162-164 | only the cells of each entry change, to its entry in the map or none |
| NodeQueries.BulkCells | query.go:158-164 | looking every loaded id up in the bulk load gives exactly that node's rows |
| NodeQueries.CellsForGrouped | query.go:163 | a listed node missing from the bulk load reads back as no cells, which is what it has |
| NodeQueries.FilterMatches | query.go:64-83 | every row the filtered window returns meets the builder's filters |
| Storage.Store.Restore | repository_typed_ops.go:13 | a rolled-back transaction puts every table back as it was |
| Storage.Store.SaveCore | repository_typed_ops.go:29 | an upsert of the core record; tags and bindings unchanged |
| Storage.Store.DeleteBindings | repository_typed_ops.go:33 | drops every binding of the node and no other |
| Storage.Store.FirstOrCreateTag | repository_typed_ops.go:41 | an existing tag row with the id is kept as it is; otherwise the tag is inserted |
| Storage.Store.CreateBinding | repository_typed_ops.go:44-50 | fails on the (NodeId, TagId) primary key exactly when the pair exists, changing nothing; otherwise adds it |
| Storage.Store.DeleteCore | typedrepository.go:118-120 | removes the core record only |
| Storage.Store.ChildCount | typedrepository.go:109-113 | zero exactly when no record's parent id is the given id |
| TypedOps.TagIdsSpec | repository_typed_ops.go:37-40 | a tag keeps its own id; the tags without one take consecutive fresh ids in loop order |
| TypedOps.TagIdsDistinct | repository_typed_ops.go:37-50 | with fresh ids, two tag ids collide exactly when the caller supplied the same id twice |
| TypedOps.BindTags | repository_typed_ops.go:37-51 | the tag loop fails exactly when a tag id repeats; on success the node is bound to exactly the tag ids, missing tags are created and existing rows kept; on failure it stopped at the first repeated id `j` (`TagsStopped`): the node is bound to exactly the ids before `j`, which are distinct, and those tags are created; it never binds another node |
| TypedOps.TagStep | repository_typed_ops.go:37-50 | one iteration: the tag takes the next fresh id when it has none, and is created and bound; it fails exactly when that id was bound before, and then the loop state of the earlier tags is unchanged |
| TypedOps.BindOne | repository_typed_ops.go:41-50 | FirstOrCreate then Create of the binding, failing exactly on an id already bound; the FirstOrCreate of such an id finds the existing row, so a failure changes no table |
| TypedOps.ReplaceCells | repository_typed_ops.go:53-62 | after DeleteAll and the loop in map order, the node's rows are exactly its cells, each stamped with the node id; other nodes' rows are unchanged |
| TypedOps.ReplaceContent | repository_typed_ops.go:64-73 | the same for content rows |
| TypedOps.CellsWrittenExactly | repository_typed_ops.go:57-62 | for a cell map keyed by the cells' own keys, the rows written are exactly the supplied cells owned by the node; keys omitted since the last save are gone |
| TypedOps.WriteNode | repository_typed_ops.go:25-73 | the id is the node's own or a fresh unused one; the core record is upserted; other nodes' bindings are kept; it fails exactly on a repeated tag id, and then the tables are `Stopped` at the first repeat: the node's earlier bindings are gone, it is bound to exactly the tags before the repeat, those are created, other tag rows are kept, and cells and content are untouched; on success the tables are `Replaced` |
| TypedOps.NodeOf | repository_typed_ops.go:14-23 | no registered mapper gives the lookup error; otherwise the registered ToNode result |
| TypedOps.Save | repository_typed_ops.go:12-77 | the lookup or conversion error is returned; it fails exactly on such an error or a repeated tag id; a failure leaves every table unchanged; success leaves them `Saved` |
| TypedOps.SaveStoresNode | repository_typed_ops.go:25-51 | a committed save stores the node under its own id, or under a fresh id no stored node had; every supplied tag id is in the tag table |
| TypedOps.SaveReadsBack | repository_typed_ops.go:33-62 | after a committed save the node is bound to exactly its tag ids, its self-keyed cells read back as exactly the supplied ones, and other nodes' bindings and cells are unchanged |
| TypedOps.SavedNodeReadsBack | repository_typed_ops.go:25-73 | what a read of the saved id sees: the saved record, bindings to exactly the tag ids, the supplied cells and content |
| TypedOps.BoundExactly | repository_typed_ops.go:33-51 | after the old bindings are replaced the node is bound to exactly the new tag ids; prior bindings are gone |
| TypedOps.ListAs | repository_typed_ops.go:79-104 | the fetch error, the lookup error, or the first mapping or type error; otherwise one value per fetched node, in order |
| TypedOps.MapEach | repository_typed_ops.go:91-103 | the loop maps every node in order and stops at the first error |
| TypedOps.ListAsMeaning | repository_typed_ops.go:79-104 | ListAs succeeds exactly when fetch, lookup and every mapping succeed, and then yields the registered fromNode of each node at its position |
| TypedOps.FirstAs | repository_typed_ops.go:106-115 | sets the query's limit to 1 and nothing else; passes an error on; NotFound on an empty list; otherwise the first value |
| TypedRepositories.TRepository.constructor | typedrepository.go:18-25 | the repository holds the handle and the mapper |
| TypedRepositories.TRepository.Save | typedrepository.go:48-105 | as written: a ToNode error returns before any write; otherwise it fails exactly on a repeated tag id, and then the writes made so far stay (`PartialSave`): the core record upserted, the node's earlier bindings deleted, the tags before the repeat created and bound; success leaves the tables `Saved` |
| TypedRepositories.TRepository.SaveInTransaction | typedrepository.go:48-105 | as intended: the same steps; it fails exactly on a ToNode error or a repeated tag id, a failure leaves every table unchanged, and success leaves them `Saved` |
| TypedRepositories.FailedSaveStillWrites | typedrepository.go:57-78 | a node carrying the same tag twice makes Save fail, yet the failed Save has written a new core record |
| TypedRepositories.FailedSaveDropsBindings | typedrepository.go:62-78 | for that input the failed Save has also deleted a binding the node had to another tag, leaving only the binding to the repeated tag, which is created |
| TypedRepositories.TransactionalSaveRollsBack | typedrepository.go:48-78 | for that same input the corrected Save fails and writes nothing |
| TypedRepositories.TRepository.Delete | typedrepository.go:107-129 | fails with "cannot delete node with children", changing nothing, exactly when some record's parent is the id; otherwise the tables are `Deleted` |
| TypedRepositories.DeleteReadsBack | typedrepository.go:118-127 | after Delete the id has no record, bindings or cells, its content rows remain, and every other node's rows are unchanged |

## Left out

- Storage I/O errors (a failing SELECT, Save or Delete) are not modelled. The only failures are a missing mapper, mapper and type errors, NotFound, the NodeTag primary key and the children guard.
- Timestamps (`autoCreateTime`, `autoUpdateTime`) and the `Metadata` JSON are opaque. `KV.ValueNumber` (float64) is an opaque value with no float reasoning.
- `ApplyStringFilter` and `ApplyTimeFilter` are not part of this model. Their wildcard escaping and time ranges are uninterpreted matchers.
- `loadTagsByNode`, the tag join in `Find`, and the fetch and tree helpers are not part of this model. They are parameters: `fetchNodes`, `fetchDescendantNodes`, `fetchAncestorNodes`, `q.List`, `q.First`, `buildTree` and `buildAncestorTree`.
- The SQL of the finders is not modelled. `First`'s ORDER BY on the primary key is delegated to the order of the table the model is given.
- `NodeQueries.NodeQuery.Find`: the tag query and `GetAll` failing after a match are not modelled (storage errors).
- `NodeQueries.LoadKV`: a node without cells gets an empty map where Go leaves a nil map. Both read as no cells.
- `ContentStore.StringMapToContent`: assumes Go 1.22 or later, where each iteration has its own `value`. With older Go every entry would share the last value.
- The `NodeId`, `ParentId` and `NamespaceId` setters of typedquery.go (50-63), and `Count`, `Delete` and `HasChildren` (218-220, 321-327) are left out. They forward to methods of a `NodeQuery` revision that is not part of this model.
- `DescendantTree` and `AncestorTree` of typedquery.go are the single-id form of the loop step. They are modelled as `Graft`.
- `TRepository.Transaction` and `TRepository.Query` (typedrepository.go:27-46, 131-133) only log and forward.
- typed_repo.go, repository.go, manager.go, sqlite/repository.go, log.go and core/node.go are not part of this model. They hold forwarding wrappers, database setup, logging, and the recursive CTE the fetch helpers use.
- The mapper registry that tree_typed.go and repository_typed_ops.go read as `q.mappers` / `r.Mappers` is passed as a parameter.
- `uuid.New()` is a parameter. Save's freshness claims hold under `FreshIds`.
- Concurrency between callers is left to the database engine.
- `Paging.WindowOf`: Go computes the offset `(page-1)*pageSize` as a 64-bit `int`, which wraps on overflow. The model's integers are unbounded, so it does not capture an offset that wraps for huge page numbers.
- `TypedOps.WriteNode`: a failing step's error is stated only as a failure, without naming the duplicate binding it carries.
- `TypedOps.SaveReadsBack`: cells and content read back as the supplied map only for self-keyed maps, whose entries carry their own key. For any other map, `Written` states what is stored: one row per distinct key, chosen in map-iteration order.
- `TypedQueries.ApplyConditions`: it uses the filter chain as written (ExcludeRoot as `parent_id IS NOT NULL`). The corrected chain is stated beside it, in `CommonFiltersCorrected`.

## Findings

| source | as written | input that shows it | evidently intended | confidence | as-written member | corrected member |
|---|---|---|---|---|---|---|
| typedquery.go:32-38 | `clone := *t` copies only the wrapper, so the clone shares `*NodeQuery` with the original | `t.Clone().Roots()` sets `onlyRoots` on `t` too | a clone with its own query state | high; not executed | TypedQueries.SetterThroughClone | TypedQueries.SetterOnCorrectedClone |
| typedquery.go:230-231 | `if !onlyRoots && isRoot` builds a tree only when `onlyRoots` is false | `Descendants(true)` on any list returns `[]` | the root criterion for both values of `onlyRoots`: one tree per root, as the design describes for `Descendants(true)` as well as `Descendants(false)` | medium; not executed | TypedQueries.DescendantsSelectionAsWritten | TypedQueries.TypedQuery.DescendantsCorrected |
| typedquery.go:139-144 | ExcludeRoot adds `parent_id IS NOT NULL` while Roots treats "" as no parent | a record with `ParentId = ""` passes both Roots and ExcludeRoot | ExcludeRoot admits exactly what Roots rejects | medium; not executed | TypedQueries.RootsAndExcludeRoot | TypedQueries.CorrectedExcludeRoot |
| typedrepository.go:57-92 | the writes go to `r.Db`, not to `tx`, so a failing step does not undo earlier writes | on a repository made by NewTRepository over a plain database handle, a node with a new id carrying the same tag twice: the second binding fails, and the core record stays written. Inside `TRepository.Transaction` (typedrepository.go:27-45) `r.Db` is itself the transaction, so the outer rollback undoes these writes there | all steps in the transaction, undone together on failure | high; not executed | TypedRepositories.FailedSaveStillWrites | TypedRepositories.TransactionalSaveRollsBack |
