/** The store wrapper that drops cached values after each successful write, over the in-memory
    store and the indexed cache. */
module InvalidatingStores {
  import opened Options
  import opened Text
  import Mem = MemoryStores
  import opened LocalCaches
  import opened IndexedProviders

  const ACTION_CACHE_PATTERN := "bffx:action-cache:*"

  datatype Write =
    | Create(resource: string, payload: Mem.Record)
    | Update(resource: string, id: string, payload: Mem.Record)
    | Delete(resource: string, id: string)

  function ResourceTag(resource: string): string {
    "resource:" + resource
  }

  /** The tags a write invalidates: the resource's, and the row's when the id is known. */
  function WriteTags(resource: string, id: string): seq<string> {
    [ResourceTag(resource)] + if id != "" then ["resource:" + resource + ":" + id] else []
  }

  // ---------------------------------------------------------------------------
  // One write
  // ---------------------------------------------------------------------------

  predicate Succeeds(db: Mem.Store, w: Write) {
    w.Create? || w.id in Mem.TableOf(db, w.resource)
  }

  function DbAfter(db: Mem.Store, w: Write, time: string): Mem.Store {
    match w
    case Create(resource, payload) => Mem.Created(db, resource, payload, time)
    case Update(resource, id, payload) => Mem.Updated(db, resource, id, payload, time)
    case Delete(resource, id) => Mem.Deleted(db, resource, id)
  }

  function WrittenId(db: Mem.Store, w: Write): string {
    match w
    case Create(resource, payload) => Mem.NewId(db, resource, payload)
    case Update(_, id, _) => id
    case Delete(_, id) => id
  }

  /** OnWrite: clear the action cache, then, unless switched off, invalidate the tags. */
  function Notified(c: Cache, resource: string, id: string, enabled: bool, now: int): Cache {
    var cleared := IndexedApply(c, InvalidatePattern(ACTION_CACHE_PATTERN));
    if enabled then IndexedApply(cleared, InvalidateTags(WriteTags(resource, id), now)) else cleared
  }

  function CacheAfter(c: Cache, db: Mem.Store, w: Write, enabled: bool, now: int): Cache {
    if Succeeds(db, w) then Notified(c, w.resource, WrittenId(db, w), enabled, now) else c
  }

  // ---------------------------------------------------------------------------
  // Runs
  // ---------------------------------------------------------------------------

  /** A computation over the rows of the resources it names. */
  datatype Query = Query(sources: set<string>, eval: map<string, Mem.Table> -> Data)

  function Fresh(q: Query, db: Mem.Store): Data {
    q.eval(map r | r in q.sources :: Mem.TableOf(db, r))
  }

  /** One step: a write through the store; a cache fill, atomic with its computation;
      or any other use of the cache. */
  datatype Event =
    | Writes(write: Write, time: string, now: int)
    | Fills(key: string, query: Query, tags: seq<string>, ttl: int, now: int)
    | Uses(op: Op)

  /** What is known of a stored key: when and with what it was last set. */
  datatype Fill = Fill(query: Option<Query>, tags: seq<string>, at: nat)

  /** `fills` and `written` record history; the program keeps neither. */
  datatype World = World(db: Mem.Store, cache: Cache, fills: map<string, Fill>, written: map<string, nat>, clock: nat)

  const START := World(Mem.EMPTY, EMPTY, map[], map[], 0)

  function Next(w: World, e: Event, enabled: bool): World {
    match e
    case Writes(write, time, now) =>
      w.(db := DbAfter(w.db, write, time),
         cache := CacheAfter(w.cache, w.db, write, enabled, now),
         written := if Succeeds(w.db, write) then w.written[write.resource := w.clock] else w.written,
         clock := w.clock + 1)
    case Fills(key, query, tags, ttl, now) =>
      w.(cache := IndexedApply(w.cache, Set(key, Fresh(query, w.db), tags, ttl, now)),
         fills := w.fills[key := Fill(Some(query), tags, w.clock)],
         clock := w.clock + 1)
    case Uses(op) =>
      w.(cache := IndexedApply(w.cache, op),
         fills := if op.Set? then w.fills[op.key := Fill(None, op.tags, w.clock)] else w.fills,
         clock := w.clock + 1)
  }

  function RunWorld(events: seq<Event>, enabled: bool): World
    decreases |events|
  {
    if events == [] then START else Next(RunWorld(events[..|events| - 1], enabled), events[|events| - 1], enabled)
  }

  /** What the code asks of its callers: keys outside the index namespace, and a fill tagged
      with every resource it reads. */
  predicate WellTagged(e: Event) {
    match e
    case Writes(_, _, _) => true
    case Fills(key, query, tags, _, _) => !InNamespace(key) && forall r <- query.sources :: ResourceTag(r) in tags
    case Uses(op) => op.Set? ==> !InNamespace(op.key)
  }

  // ---------------------------------------------------------------------------
  // Coherence
  // ---------------------------------------------------------------------------

  /** The stored key is registered under all its tags, is newer than the last successful write
      to each resource it is tagged with, and still holds what its computation would give. */
  ghost predicate KeyCoherent(w: World, key: string) {
    && key in w.cache.entries && key in w.fills && w.fills[key].at < w.clock
    && (forall t :: t in w.fills[key].tags ==> Holds(w.cache.tags, t, key))
    && (forall r :: ResourceTag(r) in w.fills[key].tags && r in w.written ==> w.written[r] < w.fills[key].at)
    && (w.fills[key].query.Some? ==>
          && w.cache.entries[key].value == Fresh(w.fills[key].query.value, w.db)
          && forall r :: r in w.fills[key].query.value.sources ==> ResourceTag(r) in w.fills[key].tags)
  }

  ghost predicate Coherent(w: World) {
    && Sound(w.cache)
    && (forall r :: r in w.written ==> w.written[r] < w.clock)
    && forall key :: key in w.cache.entries && !InNamespace(key) ==> KeyCoherent(w, key)
  }

  /** Outside the namespace the provider does what the plain cache would do. */
  lemma AsPlain(c: Cache, op: Op)
    requires Sound(c) && (op.Set? ==> !InNamespace(op.key))
    ensures SameOutside(Apply(c, op), IndexedApply(c, op)) && Sound(IndexedApply(c, op))
  {
    StepKeeps(c, c, op);
  }

  /** After a successful write, whatever is left outside the namespace was not tagged with the resource. */
  lemma NotifiedLeaves(c: Cache, resource: string, id: string, now: int)
    requires Sound(c)
    ensures Sound(Notified(c, resource, id, true, now))
    ensures forall key :: key in Notified(c, resource, id, true, now).entries && !InNamespace(key) ==>
              && key in c.entries && c.entries[key] == Notified(c, resource, id, true, now).entries[key]
              && !Holds(c.tags, ResourceTag(resource), key)
              && forall t :: Holds(c.tags, t, key) ==> Holds(Notified(c, resource, id, true, now).tags, t, key)
  {
    var cleared := IndexedApply(c, InvalidatePattern(ACTION_CACHE_PATTERN));
    AsPlain(c, InvalidatePattern(ACTION_CACHE_PATTERN));
    var names := WriteTags(resource, id);
    AsPlain(cleared, InvalidateTags(names, now));
    var after := Notified(c, resource, id, true, now);
    assert cleared.tags == c.tags;
    forall key | key in after.entries && !InNamespace(key)
      ensures key in c.entries && c.entries[key] == after.entries[key]
      ensures forall t :: t in names ==> !Holds(c.tags, t, key)
      ensures forall t :: Holds(c.tags, t, key) ==> Holds(after.tags, t, key)
    {
      assert key in Invalidated(cleared, names).entries;
      assert key !in KeysUnder(c.tags, names);
    }
    assert ResourceTag(resource) in names;
  }

  /** Outside the index namespace exactly these keys go: those of cached actions, and, unless switched
      off, those tagged with the resource or with the row. */
  ghost predicate ClearedBy(before: Cache, after: Cache, resource: string, id: string, enabled: bool) {
    forall key :: !InNamespace(key) ==>
      && (key in after.entries <==>
            && key in before.entries
            && !(exists a, b :: key == a + "bffx:action-cache:*" + b)
            && (enabled ==>
                  && !Holds(before.tags, "resource:" + resource, key)
                  && (id != "" ==> !Holds(before.tags, "resource:" + resource + ":" + id, key))))
      && (key in after.entries ==> after.entries[key] == before.entries[key])
  }

  lemma NotifiedClears(c: Cache, resource: string, id: string, enabled: bool, now: int)
    requires Sound(c)
    ensures ClearedBy(c, Notified(c, resource, id, enabled, now), resource, id, enabled)
  {
    hide Occurs;
    var cleared := IndexedApply(c, InvalidatePattern(ACTION_CACHE_PATTERN));
    AsPlain(c, InvalidatePattern(ACTION_CACHE_PATTERN));
    var names := WriteTags(resource, id);
    AsPlain(cleared, InvalidateTags(names, now));
    forall key ensures Occurs(ACTION_CACHE_PATTERN, key) <==> exists a, b :: key == a + "bffx:action-cache:*" + b {
      OccursIff(ACTION_CACHE_PATTERN, key);
    }
    forall key ensures key in KeysUnder(cleared.tags, names) <==>
                       Holds(c.tags, "resource:" + resource, key) ||
                       (id != "" && Holds(c.tags, "resource:" + resource + ":" + id, key))
    {
      UnderWriteTags(c.tags, resource, id, key);
    }
  }

  lemma UnderWriteTags(tags: TagSets, resource: string, id: string, key: string)
    ensures key in KeysUnder(tags, WriteTags(resource, id)) <==>
            Holds(tags, "resource:" + resource, key) ||
              (id != "" && Holds(tags, "resource:" + resource + ":" + id, key))
  {
    var names := WriteTags(resource, id);
    assert names[0] == "resource:" + resource;
    if id != "" { assert names[1] == "resource:" + resource + ":" + id; }
  }

  lemma FreshElsewhere(q: Query, db: Mem.Store, write: Write, time: string)
    requires write.resource !in q.sources
    ensures Fresh(q, DbAfter(db, write, time)) == Fresh(q, db)
  {
    var after := DbAfter(db, write, time);
    assert forall r :: r in q.sources ==> Mem.TableOf(after, r) == Mem.TableOf(db, r);
    assert (map r | r in q.sources :: Mem.TableOf(after, r)) == (map r | r in q.sources :: Mem.TableOf(db, r));
  }

  lemma WriteKeepsCoherence(w: World, write: Write, time: string, now: int)
    requires Coherent(w)
    ensures Coherent(Next(w, Writes(write, time, now), true))
  {
    var w' := Next(w, Writes(write, time, now), true);
    if !Succeeds(w.db, write) {
      assert w'.db == w.db;
      forall key | key in w'.cache.entries && !InNamespace(key) ensures KeyCoherent(w', key) {
        assert KeyCoherent(w, key);
      }
    } else {
      NotifiedLeaves(w.cache, write.resource, WrittenId(w.db, write), now);
      forall key | key in w'.cache.entries && !InNamespace(key) ensures KeyCoherent(w', key) {
        assert KeyCoherent(w, key);
        assert ResourceTag(write.resource) !in w.fills[key].tags;
        if w.fills[key].query.Some? {
          FreshElsewhere(w.fills[key].query.value, w.db, write, time);
        }
      }
    }
  }

  lemma SetKeepsCoherence(w: World, key: string, value: Data, fill: Fill, ttl: int, now: int, w': World)
    requires Coherent(w) && !InNamespace(key) && fill.at == w.clock
    requires fill.query.Some? ==>
               value == Fresh(fill.query.value, w.db) && forall r :: r in fill.query.value.sources ==>
                 ResourceTag(r) in fill.tags
    requires w' == w.(cache := IndexedApply(w.cache, Set(key, value, fill.tags, ttl, now)),
                      fills := w.fills[key := fill], clock := w.clock + 1)
    ensures Coherent(w')
  {
    var op := Set(key, value, fill.tags, ttl, now);
    AsPlain(w.cache, op);
    forall k | k in w'.cache.entries && !InNamespace(k) ensures KeyCoherent(w', k) {
      assert k in Apply(w.cache, op).entries;
      if k != key {
        assert KeyCoherent(w, k);
        forall t | t in w.fills[k].tags ensures Holds(w'.cache.tags, t, k) {
          assert Holds(w.cache.tags, t, k);
        }
      }
    }
  }

  lemma UseKeepsCoherence(w: World, op: Op, w': World)
    requires Coherent(w) && !op.Set?
    requires w' == w.(cache := IndexedApply(w.cache, op), clock := w.clock + 1)
    ensures Coherent(w')
  {
    AsPlain(w.cache, op);
    var after := Apply(w.cache, op);
    forall key | key in w'.cache.entries && !InNamespace(key) ensures KeyCoherent(w', key) {
      assert key in after.entries && key in w.cache.entries && after.entries[key] == w.cache.entries[key];
      assert KeyCoherent(w, key);
      assert op.InvalidateTags? ==> key !in KeysUnder(w.cache.tags, op.tags);
      forall t | t in w.fills[key].tags ensures Holds(w'.cache.tags, t, key) {
        assert Holds(w.cache.tags, t, key);
      }
    }
  }

  lemma {:induction false} EveryRunIsCoherent(events: seq<Event>)
    requires forall i :: 0 <= i < |events| ==> WellTagged(events[i])
    ensures Coherent(RunWorld(events, true))
    decreases |events|
  {
    if events != [] {
      var before, e := events[..|events| - 1], events[|events| - 1];
      EveryRunIsCoherent(before);
      var w := RunWorld(before, true);
      match e
      case Writes(write, time, now) => WriteKeepsCoherence(w, write, time, now);
      case Fills(key, query, tags, ttl, now) =>
        SetKeepsCoherence(w, key, Fresh(query, w.db), Fill(Some(query), tags, w.clock), ttl, now, Next(w, e, true));
      case Uses(op) =>
        if op.Set? {
          SetKeepsCoherence(w, op.key, op.value, Fill(None, op.tags, w.clock), op.ttl, op.now, Next(w, e, true));
        } else {
          UseKeepsCoherence(w, op, Next(w, e, true));
        }
    }
  }

  /** With tag invalidation on, in every run, a cached value a reader gets equals a fresh
      recomputation, and was stored after the last successful write to each of its resources. */
  lemma CachedEqualsFresh(events: seq<Event>, key: string, now: int)
    requires forall i :: 0 <= i < |events| ==> WellTagged(events[i])
    requires !InNamespace(key) && Lookup(RunWorld(events, true).cache, key, now).Some?
    ensures var w := RunWorld(events, true);
            && key in w.fills
            && (forall r :: ResourceTag(r) in w.fills[key].tags && r in w.written ==> w.written[r] < w.fills[key].at)
            && (w.fills[key].query.Some? ==>
                  Lookup(w.cache, key, now).value == Fresh(w.fills[key].query.value, w.db))
  {
    EveryRunIsCoherent(events);
    assert KeyCoherent(RunWorld(events, true), key);
  }

  /** With tag invalidation switched off, a write leaves a value computed before it in place. */
  lemma SwitchedOffKeepsValue(w: World, key: string, write: Write, time: string, now: int)
    requires Sound(w.cache) && key in w.cache.entries && !InNamespace(key) && !Occurs(ACTION_CACHE_PATTERN, key)
    ensures var w' := Next(w, Writes(write, time, now), false);
            key in w'.cache.entries && w'.cache.entries[key] == w.cache.entries[key]
  {
    AsPlain(w.cache, InvalidatePattern(ACTION_CACHE_PATTERN));
  }

  function AnyNotes(tables: map<string, Mem.Table>): Data {
    if "Note" in tables && tables["Note"] != map[] then Raw([1]) else Raw([])
  }

  /** So a reader can get a stale value: whether there are notes, cached before the first note. */
  lemma SwitchedOffGoesStale()
    ensures var fill := Fills("k", Query({"Note"}, AnyNotes), [ResourceTag("Note")], 0, 0);
            var w := Next(Next(START, fill, false), Writes(Create("Note", map[]), "", 0), false);
            && WellTagged(fill)
            && Lookup(w.cache, "k", 0) == Some(Raw([])) && Fresh(Query({"Note"}, AnyNotes), w.db) == Raw([1])
  {
    var q, write := Query({"Note"}, AnyNotes), Create("Note", map[]);
    var fill := Fills("k", q, [ResourceTag("Note")], 0, 0);
    var one := Next(START, fill, false);
    assert Fresh(q, Mem.EMPTY) == Raw([]);
    assert !InNamespace("k");
    AsPlain(EMPTY, Set("k", Raw([]), [ResourceTag("Note")], 0, 0));
    assert one.cache.entries["k"] == Entry(Raw([]), 0);
    SwitchedOffKeepsValue(one, "k", write, "", 0);
    var two := Next(one, Writes(write, "", 0), false);
    assert Mem.NewId(Mem.EMPTY, "Note", map[]) in Mem.TableOf(two.db, "Note");
  }

  ghost predicate AllWellTagged(events: seq<Event>) {
    forall i :: 0 <= i < |events| ==> WellTagged(events[i])
  }

  /** A value that a reader gets, and that a computation filled in, is what the computation gives now. */
  ghost predicate ReadsFresh(w: World, key: string, now: int) {
    !InNamespace(key) && Lookup(w.cache, key, now).Some? && key in w.fills && w.fills[key].query.Some? ==>
      Lookup(w.cache, key, now).value == Fresh(w.fills[key].query.value, w.db)
  }

  /** Every read after every well-tagged run is fresh if and only if tag invalidation is on. */
  lemma FreshIffEnabled(enabled: bool)
    ensures (forall events, key, now :: AllWellTagged(events) ==>
            ReadsFresh(RunWorld(events, enabled), key, now)) <==> enabled
  {
    if enabled {
      forall events, key, now | AllWellTagged(events) ensures ReadsFresh(RunWorld(events, true), key, now) {
        if !InNamespace(key) && Lookup(RunWorld(events, true).cache, key, now).Some? {
          CachedEqualsFresh(events, key, now);
        }
      }
    } else {
      StaleRun();
    }
  }

  lemma TwoEvents(a: Event, b: Event, enabled: bool)
    ensures RunWorld([a, b], enabled) == Next(Next(START, a, enabled), b, enabled)
  {
    hide Next;
    assert [a, b][..1] == [a] && [a][..0] == [];
    assert RunWorld([a], enabled) == Next(RunWorld([], enabled), a, enabled);
  }

  lemma StaleRun()
    ensures exists events, key, now :: AllWellTagged(events) && !ReadsFresh(RunWorld(events, false), key, now)
  {
    hide CacheAfter, DbAfter, IndexedApply, AnyNotes, Fresh, Lookup;
    var fill := Fills("k", Query({"Note"}, AnyNotes), [ResourceTag("Note")], 0, 0);
    var write := Writes(Create("Note", map[]), "", 0);
    SwitchedOffGoesStale();
    TwoEvents(fill, write, false);
    assert "k"[0] != INDEX_PREFIX[0];
    assert AllWellTagged([fill, write]) && !ReadsFresh(RunWorld([fill, write], false), "k", 0);
  }

  // ---------------------------------------------------------------------------
  // The store object
  // ---------------------------------------------------------------------------

  class InvalidatingStore {
    const store: Mem.MemoryStore
    const cache: IndexedProvider
    /** False when BFFX_TAG_CACHE_INVALIDATE is "false". */
    const tagInvalidation: bool

    constructor (store: Mem.MemoryStore, cache: IndexedProvider, tagInvalidation: bool)
      ensures this.store == store && this.cache == cache && this.tagInvalidation == tagInvalidation
    {
      this.store, this.cache, this.tagInvalidation := store, cache, tagInvalidation;
    }

    method OnWrite(resource: string, id: string, now: int)
      modifies cache.inner
      ensures cache.Contents() == Notified(old(cache.Contents()), resource, id, tagInvalidation, now)
      ensures Sound(old(cache.Contents())) ==>
                ClearedBy(old(cache.Contents()), cache.Contents(), resource, id, tagInvalidation)
    {
      if Sound(cache.Contents()) { NotifiedClears(cache.Contents(), resource, id, tagInvalidation, now); }
      var _ := cache.InvalidatePattern(ACTION_CACHE_PATTERN);
      if !tagInvalidation {
        return;
      }
      var tags := ["resource:" + resource];
      if id != "" {
        tags := tags + ["resource:" + resource + ":" + id];
      }
      assert tags == WriteTags(resource, id);
      var _ := cache.InvalidateTags(tags, now);
    }

    method Create(resource: string, payload: Mem.Record, time: string, now: int) returns (record: Mem.Record)
      requires store.Valid()
      modifies store, cache.inner
      ensures store.Valid()
      ensures store.Contents() == DbAfter(old(store.Contents()), Write.Create(resource, payload), time)
      ensures cache.Contents() ==
              CacheAfter(old(cache.Contents()), old(store.Contents()), Write.Create(resource, payload),
                tagInvalidation, now)
      ensures "id" in record && record["id"].Str?
      ensures Sound(old(cache.Contents())) ==>
                ClearedBy(old(cache.Contents()), cache.Contents(), resource, record["id"].s, tagInvalidation)
    {
      record := store.Create(resource, payload, time);
      var id := if record["id"].Str? then record["id"].s else "";
      OnWrite(resource, id, now);
    }

    method Update(resource: string, id: string, payload: Mem.Record, time: string, now: int)
      returns (record: Option<Mem.Record>)
      requires store.Valid()
      modifies store, cache.inner
      ensures store.Valid()
      ensures store.Contents() == DbAfter(old(store.Contents()), Write.Update(resource, id, payload), time)
      ensures cache.Contents() ==
              CacheAfter(old(cache.Contents()), old(store.Contents()), Write.Update(resource, id, payload),
                tagInvalidation, now)
      ensures record.None? ==> cache.Contents() == old(cache.Contents()) && store.Contents() == old(store.Contents())
      ensures record.Some? && Sound(old(cache.Contents())) ==>
                ClearedBy(old(cache.Contents()), cache.Contents(), resource, id, tagInvalidation)
    {
      record := store.Update(resource, id, payload, time);
      if record.Some? {
        OnWrite(resource, id, now);
      }
    }

    method Delete(resource: string, id: string, now: int) returns (found: bool)
      requires store.Valid()
      modifies store, cache.inner
      ensures store.Valid()
      ensures store.Contents() == DbAfter(old(store.Contents()), Write.Delete(resource, id), "")
      ensures cache.Contents() ==
              CacheAfter(old(cache.Contents()), old(store.Contents()), Write.Delete(resource, id), tagInvalidation, now)
      ensures !found ==> cache.Contents() == old(cache.Contents()) && store.Contents() == old(store.Contents())
      ensures found && Sound(old(cache.Contents())) ==>
                ClearedBy(old(cache.Contents()), cache.Contents(), resource, id, tagInvalidation)
    {
      found := store.Delete(resource, id);
      if found {
        OnWrite(resource, id, now);
      }
    }
  }
}
