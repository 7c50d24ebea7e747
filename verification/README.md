# A verified model of the bffx runtime's stateful core

bffx serves applications from manifests. This project models the parts of its runtime where
correctness depends on several operations together, and proves what they keep:

- `closure_tree.dfy`: the tree part of the Postgres store, a `parent_id` column beside a
  relation of (ancestor, descendant, generations) rows. Each SQL statement is one atomic set
  operation that obeys the declared primary and foreign keys.
- `local_cache.dfy`, `indexed_provider.dfy`, `invalidating_store.dfy`, `redis_cache.dfy`: the tagged
  cache stack, over whole runs with a clock.
- `memory_store.dfy`, `memory_query.dfy`, `sql_query.dfy`: the in-memory store and the three query
  builders. The SQL builders are compilers to clauses with numbered or positional placeholders;
  the in-memory builder is their meaning.
- `guest_merge.dfy`, `seed_registry.dfy`: two transformations of a whole store.
- `admin_menu.dfy`, `admin_graph.dfy`: the chain of passes over the admin sidebar.
- `rollout.dfy`, `policy.dfy`, `lockout.dfy`, `session.dfy`: feature-flag rollouts, access
  policies, the login lockout over timed runs, and the signed session payload.
- `options.dfy`, `collections.dfy`, `text.dfy`: optional values; sizes and repetitions; case, order, parts
  and decimal printing of strings.

Objects that the program updates in place are classes; each of their methods is proved against a
function of the old state, and the properties of runs are lemmas about those functions. What such a
function says is stated once more without it, over rows, cells, keys, titles and numbers as they are. The record
of what happened (when a key was last set, which failures a key had) is kept by the lemmas only.

Some promises hold only under a condition, which is stated and shown to matter:

- The hierarchy is the exact closure of `parent_id` after an accepted operation exactly when the
  named parent is not the row 0, not the new row itself, and not in the moved row's subtree
  (`ExactStepIff`); after a run, exactly when that held of the last parent write of every row
  (`ExactRunIff`). A move into the subtree detaches the node and leaves the cycle in `parent_id`
  (`MoveUnderChildBreaksExact`).
- `IndexedProvider` changes nothing its callers can see outside the index prefix exactly when they do
  not store keys both under it and outside it (`TransparentIff`).
- An invalidation in Redis can miss a live key of a tag exactly when the ttls that may be used with that
  tag are not all positive and at most an hour apart (`MissesIff`).
- A cached read is always fresh exactly when tag invalidation is on (`FreshIffEnabled`).
- When at most one top-level item is titled "Resources" and some resource is pinned, the menu ends with a
  group of every pinned resource exactly when pruning left nothing or left that item without a page
  (`PinnedResourcesAreListedIff`); listed under "App Features" alone a resource is dropped
  (`PinnedResourceIsDropped`).
- Claims that every name grants at least as much to, on the rows at hand, are granted at least as much by
  rules whose names all lie under an even number of `unless`, and at most as much under an odd number
  (`PolarityDecides`); for the others neither need hold (`MixedPolarityIsNotMonotone`). That covers no
  claims below any, any below the role admin (`AccessIsMonotone`) and added entitlements
  (`EntitlingIsMonotone`).
- A guest merge, each resource registered once, is complete if and only if no resource has more than 50000 matching rows
  (`CompleteIff`); at any size it conserves rows and owners and its count is exact.
- The second of two seed runs that succeed changes nothing exactly when the first left every item to be
  found; when explicit ids are text and collide neither with generated ones nor with each other, exactly
  when every item carries something its own lookup can find (`SecondRunIff`).
- Count agrees with Execute exactly for operators in lower case or unknown (`CountAgreesIff`), and SQL
  with memory on rows with NULL exactly where every call agrees about the text `<nil>`
  (`BuildersAgreeIff`).

## Model

| member | source | states |
|---|---|---|
| ClosureTree.DisconnectDetaches | pkg/storage/postgres.go:501-508 | after the disconnect alone the relation is the closure of the forest with the moved node made a root |
| ClosureTree.ConnectKeepsKeys | pkg/storage/postgres.go:510-524 | the cross product never repeats an (ancestor, descendant) pair, in itself or with the relation, so the insert goes through |
| ClosureTree.ConnectAttaches | pkg/storage/postgres.go:510-524 | the relation with the cross product is the closure of the forest with the node under its new parent |
| ClosureTree.MoveIntoSubtreeRefused | pkg/storage/postgres.go:510-524 | a move under the node itself or a descendant repeats the key (id, id), so the connect adds nothing |
| ClosureTree.MoveAttaches | pkg/storage/postgres.go:498-525 | a move to any parent, root or refused target leaves the closure of an acyclic forest, given explicitly |
| ClosureTree.SubtreeIsBelow | pkg/storage/postgres.go:501-508 | the subtree the disconnect reads off the relation is what lies below the node in the forest |
| ClosureTree.MoveHangs | pkg/storage/postgres.go:482-525 | read off the forest alone: the node hangs right under the new parent, or is a root if that is none, 0 or not outside its subtree |
| ClosureTree.CreateAttaches | pkg/storage/postgres.go:404-428 | a created row hangs under its parent, or is a root when no other row is named |
| ClosureTree.DeleteAttaches | pkg/storage/postgres.go:527-542 | deleting a row that no parent_id names, with its cascade, leaves the closure of the forest without it |
| ClosureTree.OneForest | pkg/storage/postgres.go:204-213 | a relation is the closure of one forest only |
| ClosureTree.ExactStepIff | pkg/storage/postgres.go:404-525 | from an exact relation an accepted operation leads to an exact one if and only if its parent is not 0, not the new row, not below the moved row |
| ClosureTree.InvariantRun | pkg/storage/postgres.go:404-542 | every run keeps the relation the closure of an acyclic forest in which each node hangs under its parent_id or is a root |
| ClosureTree.ExactRun | pkg/storage/postgres.go:404-542 | every run whose moves stay outside the moved subtree keeps the exact closure of parent_id |
| ClosureTree.CleanRunIff | pkg/storage/postgres.go:404-542 | every accepted operation of a run meets the condition of `ExactStepIff` if and only if the relation is exact at every moment of the run |
| ClosureTree.EveryRunAttaches | pkg/storage/postgres.go:404-542 | after any run the relation is the closure of one named forest: each row under its parent_id, but for the rows whose last accepted parent write missed the condition, which are roots |
| ClosureTree.ExactRunIff | pkg/storage/postgres.go:404-542 | after any run the relation is exact if and only if no row still there is such a one, so a later good move repairs a bad one |
| ClosureTree.EveryRun | pkg/storage/postgres.go:404-542 | all of this, from the empty table |
| ClosureTree.MoveUnderChildBreaksExact | pkg/storage/postgres.go:488-525 | a concrete move under an own child after which the relation is not exact |
| ClosureTree.BreadcrumbIsPath | pkg/storage/postgres.go:565-584 | the k-th ancestors read downwards are a chain of parent links from a root to the parent |
| ClosureTree.AnswerIsBreadcrumb | pkg/storage/postgres.go:565-584 | any answer ordered by generations descending is root, ..., parent, of the length of the depth |
| ClosureTree.ChildRows | pkg/storage/postgres.go:545-563 | the rows at one generation are exactly the children |
| ClosureTree.OrderByGenerations | pkg/storage/postgres.go:571-577 | an ordering loop: all rows, each once, deepest first |
| ClosureTree.TreeTable.Create | pkg/storage/postgres.go:404-428 | accepted exactly for a new id whose parent is none, there or itself; writes the row, and the relation becomes the closure of the forest with the row under its parent or a root |
| ClosureTree.TreeTable.Update | pkg/storage/postgres.go:447-496 | accepted exactly when the row and any named parent are there; writes parent_id, and the relation becomes the closure of the forest with the row under a parent outside its subtree, else a root; says exactly when exactness is kept |
| ClosureTree.TreeTable.Delete | pkg/storage/postgres.go:527-542 | accepted exactly when the row is there and no other row's parent_id names it; the relation becomes the closure of the forest without it |
| ClosureTree.TreeTable.GetChildren | pkg/storage/postgres.go:545-563 | exactly the rows whose parent is the row |
| ClosureTree.TreeTable.GetAncestors | pkg/storage/postgres.go:565-584 | exactly the path from the root to the parent; empty for a missing row |
| LocalCaches.TagSetsAreHistory | pkg/cache/local.go:46-109 | in every run a tag set holds exactly the keys registered under the tag since its last flush or invalidation |
| LocalCaches.StoredKeyIsRegistered | pkg/cache/local.go:46-146 | in every run a stored key has the value and expiration of its latest set and is in the tag set of each of its tags |
| LocalCaches.InvalidateTagsExactly | pkg/cache/local.go:92-109 | exactly the keys registered under a named tag go; none last set with one stays |
| LocalCaches.InvalidateEachIsInvalidated | pkg/cache/local.go:97-107 | the loop over the tags comes to one removal of all keys under any of them |
| LocalCaches.StoredIff | pkg/cache/local.go:46-146 | in every run a key is stored if and only if nothing removed it since its latest set: a delete, a flush, an invalidated tag it was registered under, a pattern in its name, or a cleanup after its ttl |
| LocalCaches.LocalCache.Get | pkg/cache/local.go:31-40 | after any run the value of the latest set, exactly when nothing removed the key since and its ttl is none or has not run out |
| LocalCaches.LocalCache.SetWithTags | pkg/cache/local.go:46-68 | stores the entry and registers the key under each tag |
| LocalCaches.LocalCache.InvalidateTags | pkg/cache/local.go:92-109 | removes the keys of the tags and the tags, and returns the exact drop in entries |
| LocalCaches.LocalCache.InvalidatePattern | pkg/cache/local.go:115-128 | removes exactly the keys containing the text, and returns the exact drop |
| LocalCaches.LocalCache.Cleanup | pkg/cache/local.go:134-146 | removes exactly the expired entries |
| IndexedProviders.StepKeeps | pkg/cache/index.go:25-95 | one operation keeps agreement outside the index namespace and every index within its tag set |
| IndexedProviders.IndexedRunAgrees | pkg/cache/index.go:25-95 | in every run the wrapped cache has the same contents and tag sets as the plain one outside the namespace |
| IndexedProviders.IndexedReadsAgree | pkg/cache/index.go:25-95 | so every read outside the namespace at any moment gives the same |
| IndexedProviders.NamespaceWriteBreaks | pkg/cache/index.go:68-87 | a caller's list under the index prefix makes an invalidation delete an unrelated key |
| IndexedProviders.TransparentIff | pkg/cache/index.go:25-95 | callers who store only keys of a given set never see the index, in any run, if and only if those keys are all outside its namespace or all inside |
| IndexedProviders.AddToIndexLists | pkg/cache/index.go:31-56 | one more entry: a read of the list ends with the key, for a minute longer than its ttl, and nothing else changes |
| IndexedProviders.SetIsListed | pkg/cache/index.go:25-58 | after a set the key is in the list of each of its tags |
| IndexedProviders.IndexedProvider.SetWithTags | pkg/cache/index.go:25-58 | stores, and leaves the key in the list of each tag |
| IndexedProviders.IndexedProvider.IndexOne | pkg/cache/index.go:31-56 | a key already listed leaves the list and its ttl; a new one is appended with the longer ttl |
| IndexedProviders.IndexedProvider.InvalidateTags | pkg/cache/index.go:68-95 | deletes by the lists, then by the inner tag sets; returns the larger of the two counts |
| IndexedProviders.IndexedProvider.DropOneIndex | pkg/cache/index.go:71-87 | deletes the listed keys and the list |
| InvalidatingStores.NotifiedLeaves | pkg/app/server.go:110-121 | after a write's callback no key tagged with the resource is left, and what is left is unchanged |
| InvalidatingStores.NotifiedClears | pkg/app/server.go:110-121 | outside the index namespace exactly the keys with the action pattern go and, unless switched off, those tagged with the resource or the row |
| InvalidatingStores.WriteKeepsCoherence | pkg/storage/storage.go:160-183 | a write, successful or not, keeps every cached value equal to a recomputation |
| InvalidatingStores.EveryRunIsCoherent | pkg/app/server.go:101-124 | in every run of writes, atomic fills and other uses each stored key is newer than the last write to its resources |
| InvalidatingStores.CachedEqualsFresh | pkg/app/server.go:101-124 | what a reader gets equals a fresh computation over the current rows |
| InvalidatingStores.FreshIffEnabled | pkg/app/server.go:110-121 | every read after every well-tagged run is fresh if and only if tag invalidation is on |
| InvalidatingStores.SwitchedOffKeepsValue | pkg/app/server.go:112-114 | with tag invalidation off a write leaves the cached value |
| InvalidatingStores.SwitchedOffGoesStale | pkg/app/server.go:112-114 | a concrete run that then serves a stale value |
| InvalidatingStores.InvalidatingStore.OnWrite | pkg/app/server.go:110-121 | clears exactly the action cache and, unless switched off, the keys of the resource's and the row's tags |
| InvalidatingStores.InvalidatingStore.Create | pkg/storage/storage.go:160-167 | creates, then notifies with the new id |
| InvalidatingStores.InvalidatingStore.Update | pkg/storage/storage.go:169-175 | clears the keys of the row only if it was there; otherwise store and cache are as they were |
| InvalidatingStores.InvalidatingStore.Delete | pkg/storage/storage.go:177-183 | the same for a deletion |
| RedisCaches.SetKeepsListed | pkg/cache/redis.go:49-75 | a set, with this tag or without, keeps every live key of the tag listed in a tag set that expires no earlier |
| RedisCaches.InvalidateMissesNone | pkg/cache/redis.go:99-130 | no live key last set with a named tag survives, if that tag's keys were listed |
| RedisCaches.EveryRunIsSound | pkg/cache/redis.go:49-130 | if the ttls used with one tag are positive and at most an hour apart, every timed run keeps its live keys listed, whatever happens to other tags |
| RedisCaches.LiveKeysAreListed | pkg/cache/redis.go:49-130 | at every later moment a live key of that tag is in its live set, and an invalidation naming the tag removes it |
| RedisCaches.MissesIff | pkg/cache/redis.go:49-130 | for any set of ttls that may be used with a tag, some timed run misses a key if and only if they are not all positive and at most an hour apart |
| RedisCaches.WiderTtlsMissAKey | pkg/cache/redis.go:61-66 | for any tag and any ttls more than an hour apart, a live key that an invalidation misses |
| RedisCaches.UnexpiringKeyIsMissed | pkg/cache/redis.go:58-66 | the same for any ttl that is not positive |
| RedisCaches.UnlinkDrop | pkg/cache/redis.go:108-126 | what UNLINK counts is what goes from the live values |
| RedisCaches.StoredIff | pkg/cache/redis.go:49-130 | in every run a key is stored, as its latest set stored it, if and only if nothing removed it since, by name or as a live member of an invalidated tag |
| RedisCaches.RedisCache.Get | pkg/cache/redis.go:28-43 | after any run the value of the latest set, exactly when nothing removed the key since and its ttl is none or has not run out |
| RedisCaches.RedisCache.SetWithTags | pkg/cache/redis.go:49-75 | the value, and each tag set extended and expiring an hour later; tag sets list data keys only |
| RedisCaches.RedisCache.InvalidateTags | pkg/cache/redis.go:99-130 | removes the members and the tag sets, and returns exactly how many live values went |
| MemoryStores.CreatedSound | pkg/storage/memory.go:108-130 | a created row carries its key in `id` |
| MemoryStores.UpdatedSound | pkg/storage/memory.go:132-148 | an update cannot change `id` |
| MemoryStores.CreatedMeans | pkg/storage/memory.go:108-130 | which id, which counter, and every field of the new row; all other rows as they were |
| MemoryStores.UpdatedMeans | pkg/storage/memory.go:132-148 | every field of the row afterwards; all other rows as they were |
| MemoryStores.DeletedMeans | pkg/storage/memory.go:150-163 | the row is gone, all other rows are as they were |
| MemoryStores.PageIs | pkg/storage/memory.go:293-302 | which elements a page has, for any offset and limit |
| MemoryStores.MemoryStore.Get | pkg/storage/memory.go:79-88 | the row, or none |
| MemoryStores.MemoryStore.GetByField | pkg/storage/memory.go:90-106 | some row whose field prints as the value, exactly when there is one |
| MemoryStores.MemoryStore.Create | pkg/storage/memory.go:108-130 | counts up, takes the explicit id or the counter, stamps both times |
| MemoryStores.MemoryStore.Update | pkg/storage/memory.go:132-148 | merges all fields but id and created_at, stamps updated_at |
| MemoryStores.MemoryStore.Delete | pkg/storage/memory.go:150-163 | removes exactly the row |
| MemoryStores.MemoryStore.ListByOwner | pkg/storage/memory.go:55-77 | a page of exactly the rows created by the owner, each once |
| MemoryQueries.OneListing | pkg/storage/memory.go:280-291 | with distinct values in the order field there is one ordered listing |
| MemoryQueries.PageInOrder | pkg/storage/memory.go:280-302 | the printed order cells of a page rise, or when descending fall |
| Text.LessIff | pkg/storage/memory.go:371-380 | text comparison is by the first difference, a proper prefix first |
| MemoryQueries.OperatorsMean | pkg/storage/memory.go:230-272 | what equality, order, membership and like ask of the printed cell and argument |
| MemoryQueries.OtherOperatorsMean | pkg/storage/memory.go:230-246 | the other operators are negations and other names of these |
| MemoryQueries.UnknownPasses | pkg/storage/memory.go:230-270 | an operator the switch does not name passes every row |
| MemoryQueries.PagesConcatenate | pkg/storage/memory.go:219-305 | pages at 0, n, 2n, ..., each from its own run, concatenate to the full sorted matching list |
| MemoryQueries.CountAgrees | pkg/storage/memory.go:307-369 | for operators in lower case, or unknown in any, Count counts what Execute lists |
| MemoryQueries.CountAgreesIff | pkg/storage/memory.go:318-358 | for all tables and values, exactly for those operators |
| MemoryQueries.MemoryQueryBuilder.Execute | pkg/storage/memory.go:219-305 | a page of a permutation of exactly the matching rows, the printed order cells rising, or falling when descending |
| MemoryQueries.MemoryQueryBuilder.Count | pkg/storage/memory.go:307-369 | how many rows pass every filter with the operator's case folded |
| MemoryQueries.MemoryQueryBuilder.TestRow | pkg/storage/memory.go:227-274 | the filter loop, stopped at the first failure, decides all filters |
| MemoryQueries.SortIds | pkg/storage/memory.go:280-291 | a permutation whose printed cells rise, or fall when descending |
| SqlQueries.PlaceholdersAreNumbered | pkg/storage/postgres.go:604-645 | for any calls the placeholders across all clauses are $1, ..., $n in order, n the number of arguments |
| SqlQueries.PgStep | pkg/storage/postgres.go:604-645 | one more call conjoins its condition, whatever was compiled before |
| SqlQueries.LiteStep | pkg/storage/sqlite.go:449-485 | the same for positional marks, which match the arguments in number |
| SqlQueries.SqlBuildersAgree | pkg/storage/sqlite.go:449-485 | for any calls and any row the Postgres and SQLite queries select the same |
| SqlQueries.ConditionMeansFilter | pkg/storage/memory.go:226-274 | the condition asked of SQL is the filter, on text always, and on NULL exactly where the filter rejects the printed nil |
| SqlQueries.SqlSelectsCommon | pkg/storage/postgres.go:604-719 | for any portable calls over text and NULL columns SQL selects exactly the rows memory selects on which every call agrees about NULL |
| SqlQueries.BuildersAgreeIff | pkg/storage/postgres.go:604-719 | so all three builders agree on a row if and only if memory rejects it or every call agrees on it |
| SqlQueries.TablesAgree | pkg/storage/sqlite.go:509-534 | both SQL builders take the same ids from a table, among those memory takes; all of them if and only if every matching row is one they agree on |
| SqlQueries.CountsAgree | pkg/storage/sqlite.go:536-552 | the SQL counts agree, and with the in-memory Count under exactly the same condition |
| SqlQueries.EmptyInSelectsNothing | pkg/storage/postgres.go:628-633 | an empty WhereIn among any other calls selects nothing, in all three |
| SqlQueries.OneCallAgreesIff | pkg/storage/memory.go:229-262 | a single call agrees on a text or NULL column exactly where its operator rejects the printed nil or the column is text |
| SqlQueries.PlainCallsArePortable | pkg/storage/postgres.go:604-645 | calls on lower-case names with text values are portable, for the six comparisons and for membership |
| SqlQueries.BadCallIsIgnored | pkg/storage/sqlite.go:449-485 | a call with a bad name or an unknown operator changes neither query, but for an empty WhereIn |
| SqlQueries.PostgresQueryBuilder.Where | pkg/storage/postgres.go:604-626 | adds the clause of the call, or nothing for a bad name or operator, and keeps the numbering |
| SqlQueries.PostgresQueryBuilder.WhereIn | pkg/storage/postgres.go:628-645 | adds the membership clause, or the false one for no values |
| SqlQueries.PostgresQueryBuilder.AppendArgs | pkg/storage/postgres.go:638-642 | the loop appends every value and numbers it by the arguments so far |
| SqlQueries.PostgresQueryBuilder.Statement | pkg/storage/postgres.go:670-693 | placeholders $1, ..., $n include LIMIT and OFFSET, each fetching its own number |
| SqlQueries.SqliteQueryBuilder.Where | pkg/storage/sqlite.go:449-468 | adds the clause of the call with positional marks |
| SqlQueries.SqliteQueryBuilder.WhereIn | pkg/storage/sqlite.go:470-485 | adds the membership clause, or the false one for no values |
| GuestMerge.MergeMovesRows | pkg/storage/guest_merge.go:31-73 | each resource keeps its row ids; covered owner fields naming the guest become the account; nothing else changes but the time stamp |
| GuestMerge.GivingTakesCells | pkg/storage/guest_merge.go:46-51 | giving any of the matching rows away takes exactly as many owner fields off the guest |
| GuestMerge.GivingConserves | pkg/storage/guest_merge.go:46-51 | it loses and makes no row and changes no owner but from guest to account |
| GuestMerge.ConservedThrough | pkg/storage/guest_merge.go:30-73 | conservation and the count carry over from step to step |
| GuestMerge.CompleteIff | pkg/storage/guest_merge.go:10-73 | with each resource registered once, nothing names the guest any more if and only if no resource had more matching rows than the cap |
| GuestMerge.NoCellsLeft | pkg/storage/guest_merge.go:31-73 | afterwards no covered field names the guest |
| GuestMerge.MergeOutcome | pkg/storage/guest_merge.go:15-77 | over the whole merge, of the users exactly the guest is gone and no user but the account changes |
| GuestMerge.FlagsMean | pkg/storage/guest_merge.go:31-73 | the cells to be moved and the cap, read off the flags of the declarations |
| GuestMerge.AllAreMoved | pkg/storage/guest_merge.go:30-73 | the guest's cells of resources that can be decoded, are not telemetry and not User become the account's; every other owner field of a row that is left is as it was |
| GuestMerge.UsersAreMerged | pkg/storage/guest_merge.go:20-28 | exactly the guest is gone, and its device id is with the account if only the guest had one |
| GuestMerge.ReassignRows | pkg/storage/guest_merge.go:46-51 | an update loop gives every listed row to the account |
| GuestMerge.MoveListed | pkg/storage/guest_merge.go:44-72 | moves matching rows only, all of them up to the cap; beyond it exactly the surplus stays behind |
| GuestMerge.MergeResource | pkg/storage/guest_merge.go:44-72 | both loops of one resource: other resources untouched, owners conserved, the surplus left, the count exact |
| GuestMerge.MergeResources | pkg/storage/guest_merge.go:30-73 | the loop over the registry skips users, undecodable and telemetry resources |
| GuestMerge.MergeGuestIntoAccount | pkg/storage/guest_merge.go:15-77 | no-op for empty or equal ids; at any size owners are conserved, the count is exact and of the users exactly the guest goes; all owner fields of the moved resources, read off the flags, change hands if and only if none exceeds the cap of 50000 |
| SeedRegistries.FirstRunFindsAll | pkg/storage/seed_registry.go:21-108 | after a run that succeeds every item is found by its own lookup |
| SeedRegistries.FoundItemsChangeNothing | pkg/storage/seed_registry.go:21-108 | a run over found items changes nothing |
| SeedRegistries.SecondRunDoesNothing | pkg/storage/seed_registry.go:21-108 | a second run, with other salts and at another time, leaves the store and its counters as they were |
| SeedRegistries.LookupIgnoresPassword | pkg/storage/seed_registry.go:110-132 | no lookup depends on the hashed password |
| SeedRegistries.UnidentifiedRepeats | pkg/storage/seed_registry.go:134-188 | an item, blueprint or row, that its own lookup cannot find is created by every run that gets past it |
| SeedRegistries.IdleIff | pkg/storage/seed_registry.go:21-108 | any run that succeeds, over any store and items, changes nothing if and only if every item was there to be found |
| SeedRegistries.SecondRunIff | pkg/storage/seed_registry.go:21-108 | of two runs that succeed the second changes nothing if and only if the first left every item to be found; with clear ids that are text, if and only if every item is identified |
| SeedRegistries.LookUpRecord | pkg/storage/seed_registry.go:134-160 | by email alone when there is one, else by AppConfig keys |
| SeedRegistries.SeedRowFoundIff | pkg/storage/seed_registry.go:162-188 | a row is found by any of four fields, for AppConfig six, that is set and prints as some row's |
| SeedRegistries.RecordExistsIff | pkg/storage/seed_registry.go:134-160 | a blueprint is found by its email alone, or without one, for AppConfig, by either key |
| SeedRegistries.FirstFoundIs | pkg/storage/seed_registry.go:163-181 | the code is looked up before the id, the email and the name |
| SeedRegistries.HashedIs | pkg/storage/seed_registry.go:111-117 | a password that is neither empty nor a hash is hashed, and only a failure of that fails |
| SeedRegistries.HarmonizedIs | pkg/storage/seed_registry.go:119-130 | AppConfig keys and values stand in for their missing other names; nothing else changes |
| SeedRegistries.BlueprintItemsAre | pkg/storage/seed_registry.go:41-55 | at least one copy, defaults before fields |
| SeedRegistries.FindSeedRow | pkg/storage/seed_registry.go:162-188 | found exactly when some field matches; the id is that of a row matched by the first such field |
| SeedRegistries.SeedRow | pkg/storage/seed_registry.go:81-104 | created, skipped, or with upsert updated under the id found |
| SeedRegistries.SeedBlueprint | pkg/storage/seed_registry.go:37-67 | the count loop, stopped at an error |
| SeedRegistries.PlainSteps | pkg/storage/seed_registry.go:79-104 | without upsert a sequence of rows has one outcome, that of the items |
| SeedRegistries.SeedTable | pkg/storage/seed_registry.go:76-104 | the row loop, each row created, skipped or updated, stopped at an error |
| SeedRegistries.SeedRegistry | pkg/storage/seed_registry.go:21-108 | removes no row; the blueprints, then every seed row in order with its own upsert, stopped at the first error; without upsert the list of items |
| AdminMenus.RemovedPage | pkg/manifest/admin_graph_menu.go:372-384 | the filter leaves no item with the page and brings nothing in |
| AdminMenus.RemovedLabel | pkg/manifest/admin_graph_menu.go:40-52 | the same for a label up to case |
| AdminMenus.PruneKeeps | pkg/manifest/admin_graph_menu.go:31-38 | pruning keeps exactly the items that are not disabled and lie under none that is, in order; with both features on all |
| AdminMenus.NothingElse | pkg/manifest/admin_graph_menu.go:10-29 | reconciliation brings in no titles and pages but those of resources, screens and a fixed list by feature, and keeps no page of a feature that is off |
| AdminMenus.MonitoringIsGone | pkg/manifest/admin_graph_menu.go:35-37 | with liveops off nothing at any depth is titled "Monitoring" up to case, but for resources, screens and users so named |
| AdminMenus.DisabledPagesAreGone | pkg/manifest/admin_graph_menu.go:10-38 | after reconciliation no item at any depth has a page of a disabled feature |
| AdminMenus.RepairedWithin | pkg/manifest/admin_graph_menu.go:20-26 | no pass brings a disabled page back |
| AdminMenus.ReconciledIsSorted | pkg/manifest/admin_graph_menu.go:438-450 | every sibling list is in order of priority and label |
| AdminMenus.SortedIsInOrder | pkg/manifest/admin_graph_menu.go:438-450 | at every depth priorities rise, and titles where they are equal |
| AdminMenus.PinnedResourcesAreListed | pkg/manifest/admin_graph_menu.go:54-115 | the "Resources" group of a menu that pruning left empty or grouped ends with every visible pinned non-user resource |
| AdminMenus.PinnedResourcesAreListedIff | pkg/manifest/admin_graph_menu.go:15-29 | with at most one item so titled, the group is there afterwards if and only if pruning left nothing or left that item page-less |
| AdminMenus.RepairedLacks | pkg/manifest/admin_graph_menu.go:20-28 | no pass makes a top-level "Resources" group |
| AdminMenus.NeededIff | pkg/manifest/admin_graph_menu.go:57-73 | which pages are needed: of resources that are enabled, not reserved, not User and pinned by preference or else by manifest |
| AdminMenus.PinnedScreensAreListed | pkg/manifest/admin_graph_menu.go:341-354 | with app features on the menu ends with a group of every pinned screen, whatever it was |
| AdminMenus.AppFeaturesSectionPages | pkg/manifest/admin_graph_menu.go:220-253 | the pages of that section, exactly |
| AdminMenus.DocsAreListed | pkg/manifest/admin_graph_menu.go:308-330 | with the documentation on, a menu that was empty or has a "Settings" group shows both its pages |
| AdminMenus.AttachItemLists | pkg/manifest/admin_graph_menu.go:392-417 | a visible resource that names a group as its parent is in it after attaching |
| AdminMenus.InjectPinnedLists | pkg/manifest/admin_graph_menu.go:285-306 | after the pin pass every pinned resource is somewhere in the menu |
| AdminMenus.MergedIs | pkg/manifest/admin_graph_menu.go:92-115 | merging keeps every existing item and adds each new page once |
| AdminMenus.SettingsHave | pkg/manifest/admin_graph_menu.go:117-130 | the settings keep what they have and have "App Settings" |
| AdminMenus.ResourceChildrenIff | pkg/manifest/admin_graph_menu.go:55-82 | the items of the resources section, exactly |
| AdminMenus.PinnedScreensIff | pkg/manifest/admin_graph_menu.go:224-241 | the items of the pinned screens, exactly |
| AdminMenus.UserLabelIs | pkg/manifest/admin_graph_menu.go:152-160 | the first visible user resource gives its title |
| AdminMenus.DefaultTop | pkg/manifest/admin_graph_menu.go:143-218 | what the default menu shows at its top, in order, by feature |
| AdminMenus.RepairedKeepsGroup | pkg/manifest/admin_graph_menu.go:20-26 | no later pass takes a page out of that group |
| AdminMenus.PinnedResourceIsDropped | pkg/manifest/admin_graph_menu.go:341-354 | without the group a pinned resource listed under "App Features" ends nowhere |
| AdminGraphs.RemoveMenuPage | pkg/manifest/admin_graph_menu.go:372-384 | the in-place compaction equals the recursive order-preserving filter |
| AdminGraphs.RemoveMenuItemByLabel | pkg/manifest/admin_graph_menu.go:40-52 | the same for labels up to case |
| AdminGraphs.MergeMenuChildrenByPage | pkg/manifest/admin_graph_menu.go:92-115 | existing items, then the injected ones whose page is new, sorted |
| AdminGraphs.BuildAppFeaturesMenuSection | pkg/manifest/admin_graph_menu.go:220-253 | pinned screens sorted, and "Other Features" last when something is left over |
| AdminGraphs.InsertionSortIsSorter | pkg/manifest/admin_graph_menu.go:438-450 | what is assumed of the library sort can be met |
| AdminGraphs.AdminGraph.ApplyNavPreferences | pkg/manifest/nav_preferences.go:20-33 | the pin of each resource named in the preferences is theirs |
| AdminGraphs.AdminGraph.PruneMenuByFeatures | pkg/manifest/admin_graph_menu.go:31-38 | keeps exactly the items that are not disabled and lie under none that is, in order |
| AdminGraphs.AdminGraph.CollectResources | pkg/manifest/admin_graph_menu.go:55-82 | the pinned items sorted, and "Other Resources" last when there are unpinned ones |
| AdminGraphs.AdminGraph.EnsureResourcesMenuSection | pkg/manifest/admin_graph_menu.go:54-90 | merges into the first "Resources" item |
| AdminGraphs.AdminGraph.InjectPinnedNavItems | pkg/manifest/admin_graph_menu.go:285-306 | each pinned resource whose page is nowhere yet goes into the group or to the end |
| AdminGraphs.AdminGraph.EnsureAppFeaturesMenuSection | pkg/manifest/admin_graph_menu.go:341-354 | replaces the first such item, or appends the section |
| AdminGraphs.AdminGraph.InjectPinnedFeatureItems | pkg/manifest/admin_graph_menu.go:264-283 | the same for pinned screens |
| AdminGraphs.AdminGraph.EnsureSettingsMenuSection | pkg/manifest/admin_graph_menu.go:117-130 | "App Settings" once, children sorted |
| AdminGraphs.AdminGraph.EnsureDocsMenuSection | pkg/manifest/admin_graph_menu.go:308-330 | removes the documentation pages, or rebuilds them under "Settings" |
| AdminGraphs.AdminGraph.FinalizeAdminMenu | pkg/manifest/admin_graph_menu.go:15-29 | the passes in order, or the default menu |
| AdminGraphs.AdminGraph.ReconcileAdminMenu | pkg/manifest/admin_graph_menu.go:10-13 | disabled pages and Monitoring gone, siblings in order, pinned resources, pinned screens and documentation listed, in one call |
| Rollouts.SelectEntry | pkg/featureflags/evaluator.go:215-220 | the loop finds the entry that owns the bucket, or no entry does |
| Rollouts.FirstExceeding | pkg/featureflags/evaluator.go:215-220 | owning the bucket is having the first cumulative weight above it |
| Rollouts.SelectedOnce | pkg/featureflags/evaluator.go:215-220 | no bucket selects two entries |
| Rollouts.UnselectedIff | pkg/featureflags/evaluator.go:215-223 | no entry owns a bucket exactly when it is beyond the reach of all |
| Rollouts.BucketsExactly | pkg/featureflags/evaluator.go:201-240 | for any weights at all, how many of the 100000 buckets select an entry and how many select none |
| Rollouts.WeightsAreExact | pkg/featureflags/evaluator.go:201-240 | for non-negative weights of sum at most 100000 an entry gets exactly its weight, and the rest selects none |
| Rollouts.PrefixCount | pkg/featureflags/evaluator.go:233-240 | a bucket has 42950 or 42949 of the 2^32 hash prefixes, and which |
| Rollouts.PrefixShare | pkg/featureflags/evaluator.go:233-240 | an entry gets between 42949 and 42950 prefixes per unit of weight |
| Rollouts.RolloutSize | pkg/featureflags/evaluator.go:63-74 | a rollout of r percent takes in exactly 1000 r buckets, for any integer r clipped to 0..100 |
| Rollouts.RaisingAddsBuckets | pkg/featureflags/evaluator.go:38-82 | raising the rollout takes nobody out and takes in exactly the buckets between the two percentages |
| Rollouts.GivesOne | pkg/featureflags/evaluator.go:20-92 | a flag gives each context one value |
| Rollouts.TargetingGives | pkg/featureflags/evaluator.go:20-82 | off gives the off value; a target the first variation and anyone else the off value |
| Rollouts.TargetedIff | pkg/featureflags/evaluator.go:38-75 | a target is a listed user, in a listed segment up to case, or a user, or else device, whose digest falls below the percentage |
| Rollouts.RulesGive | pkg/featureflags/evaluator.go:84-91 | the first rule that holds chooses, or if none does the fallthrough |
| Rollouts.ChoiceGives | pkg/featureflags/evaluator.go:201-240 | a fixed variation, or that of the entry whose share of the digest prefixes the context falls into |
| Rollouts.AttributeIs | pkg/featureflags/evaluator.go:162-190 | the built-in attributes in any case; others as written, attributes before claims |
| Rollouts.RuleNarrows | pkg/featureflags/evaluator.go:94-104 | each further clause narrows a rule, and a rule without clauses never holds |
| Rollouts.ClauseNegated | pkg/featureflags/evaluator.go:110-159 | a negated clause is the opposite, and `notIn` the opposite of `in` |
| Rollouts.ClauseMeans | pkg/featureflags/evaluator.go:110-155 | equal, starting, ending, containing, matching: by the parts of the attribute |
| Rollouts.Contains | pkg/featureflags/evaluator.go:192-199 | whether some value prints like the attribute |
| Rollouts.MatchClause | pkg/featureflags/evaluator.go:106-160 | the operators and their negation |
| Rollouts.MatchRule | pkg/featureflags/evaluator.go:94-104 | all clauses hold and there is one |
| Rollouts.SelectVariation | pkg/featureflags/evaluator.go:201-224 | a fixed variation, else the entry owning the bucket, else nothing |
| Rollouts.MatchTargeting | pkg/featureflags/evaluator.go:38-75 | by user, by segment up to case, or by rollout on the user or else the device |
| Rollouts.Evaluate | pkg/featureflags/evaluator.go:20-92 | off value, then targeting, then the first rule that holds, then the fallthrough |
| Policies.PolarityDecides | pkg/auth/policy_engine.go:20-138 | if on the rows at hand every name that grants to one grants to the other, the parity of `unless` decides at any nesting in which direction the answer moves |
| Policies.BelowIff | pkg/auth/policy_engine.go:20-138 | and only then do all rules without `unless` move that way |
| Policies.EntitlingIsMonotone | pkg/auth/policy_engine.go:52-138 | on one row more entitlements of the same user and role take nothing away, and give nothing under one `unless` |
| Policies.AccessIsMonotone | pkg/auth/policy_engine.go:20-138 | granted to nobody in particular, granted to any claims, granted to the admin role, whatever the resources; reversed under one `unless` |
| Policies.AdminIsOnTop | pkg/auth/policy_engine.go:52-109 | the claims that every name grants to are exactly those with the role admin |
| Policies.RulesMean | pkg/auth/policy_engine.go:20-41 | lists, "and", "or" and "unless", and which of them decides |
| Policies.PlainUserIs | pkg/auth/policy_engine.go:52-109 | what each name grants a user who is no administrator |
| Policies.OthersAre | pkg/auth/policy_engine.go:43-109 | without claims only the public; "administrator" all but the admin names |
| Policies.NilIsBelowAll | pkg/auth/policy_engine.go:52-109 | a name granted without claims is granted with any, on whatever row |
| Policies.MixedPolarityIsNotMonotone | pkg/auth/policy_engine.go:111-138 | a rule of both polarities that grants neither strangers nor admins but a signed-in user |
| Lockouts.EveryRunIsRecorded | pkg/admin/auth.go:199-236 | in every run the attempt of a key is the weight of its failures since its last success and the lock after the last one |
| Lockouts.RefusedIff | pkg/admin/auth.go:199-210 | a login is refused exactly when its address or email has failures of weight 5 or more, the last less than 15 minutes ago |
| Lockouts.RefusedUntil | pkg/admin/auth.go:199-210 | the end a refusal names is 15 minutes after the last failure of the address, or if that is not locked of the email |
| Lockouts.FailuresAreSpaced | pkg/admin/auth.go:199-230 | admitted failures of a key are in order, and from the fifth on 15 minutes apart |
| Lockouts.WindowBound | pkg/admin/auth.go:199-230 | a window of length T has at most 5 + T / 15 min of them |
| Lockouts.BoundIsMet | pkg/admin/auth.go:199-230 | for any number of locks a run that meets the bound |
| Lockouts.PassesIff | pkg/admin/auth.go:94-101 | who passes: found under the email as given or in lower case, with the right password and one of four roles up to case and blanks |
| Lockouts.AuthHandler.CheckRateLimit | pkg/admin/auth.go:199-210 | the end of the lock of the address, else of the email |
| Lockouts.AuthHandler.RecordFailure | pkg/admin/auth.go:212-230 | counts both keys up, one key twice if they are the same, and locks from the fifth |
| Lockouts.AuthHandler.Login | pkg/admin/auth.go:290-366 | the gates in order, what each outcome means, and the step on the attempts |
| Sessions.VerifiesIffSigned | pkg/admin/auth.go:63-86 | a string verifies to a value exactly when it is its signed form |
| Sessions.PayloadCounts | pkg/admin/auth_session.go:12-14 | the printed payload has four separators and those of the email |
| Sessions.PayloadSplits | pkg/admin/auth_session.go:12-31 | without a separator in the email it splits into its five fields |
| Sessions.ParsesPrinted | pkg/admin/auth_session.go:32-34 | a printed 64-bit integer parses back |
| Sessions.RoundTripIff | pkg/admin/auth_session.go:12-36 | a signed session parses back to itself if and only if the email has no separator, and otherwise fails |
| Sessions.OnlySignedParses | pkg/admin/auth_session.go:16-27 | whatever parses was signed |
| Sessions.LegacyParses | pkg/admin/auth_session.go:21-27 | a signed value without the version mark is a plain email, or does not parse |
| Sessions.OtherNumbers | pkg/admin/auth_session.go:32-34 | a number that does not fit reads as the nearest bound, and what is not a number as 0 |
| Text.FoldsCapitals | pkg/auth/policy_engine.go:53-53 | folding changes the letters of the one case alone, each to its other |
| Text.TrimSpaceIs | pkg/auth/policy_engine.go:53-53 | trimming takes blanks, and only blanks, off both ends |

## Left out

- SQL text, drivers, connections, schema reconciliation and row scanning: a statement is an atomic operation on sets with the keys declared in pkg/storage/postgres.go:196-213.
- Whether a resource is a tree: taken as given, since `NewPostgresStore` never assigns the registry that `isTree` reads (pkg/storage/postgres.go:433-445). Row ids are integers there, and the strings for "no parent" are `None` and 0.
- Result order of `GetChildren`, which the query leaves open: a set.
- Columns of other types than text and NULL, `LIKE`, mixed-case fields, alias operators and SQLite's OFFSET without LIMIT: the builders do not agree there. `LIKE` is a parameter, text comparison is bytewise.
- `validateName` of the resource itself, and the text of LIMIT and ORDER BY beyond the placeholders.
- Unicode: case folding is that of ASCII letters, and blanks are those of Latin-1.
- Integer width: sums of weights, counters and times are unbounded, except in the session payload.
- Time: each call reads the clock as a parameter; a login reads it once for the check and once for the record.
- Concurrency inside a call, and fills that are not atomic with their computation.
- JSON: an index is stored as the list it encodes; bytes that a caller puts under an index key read as no list or as the list they are.
- The action cache itself: only its pattern, which `LocalCache` matches literally, star included.
- Errors of cache and store back ends, Redis connection loss, the special ttl that keeps an old one; a Redis pipeline runs at one moment, and times are whole seconds.
- `RedisCache.Flush` and `InvalidatePattern` appear as steps of runs, not as methods.
- `IndexedProvider` over a provider without tags, `RouterStore`, tracing wrappers, `MemoryStore.List`.
- Manifest decoding errors while seeding.
- Aliasing of menu slices: a sibling list is a value, compacted in place as an array by the two filters; attaching and injecting below the top level are functions.
- The library sort: any function that permutes its input into order; ties may fall either way, and children are sorted before their parents' list.
- Idempotence of the menu reconciliation, which a second call after the default menu does not have.
- Cryptography: message authentication codes, password hashes and digests are function parameters, a code having no dot and a digest 32 bits of prefix.
- Prerequisites of flags, which the evaluator skips, and regular expressions in clauses, a parameter.
- Session expiry, cookies and HTTP: a login's decoded body and client address are its parameters.
