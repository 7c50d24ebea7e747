/** Applying blueprints and seeds to the in-memory store. */
module SeedRegistries {
  import opened Options
  import opened Text
  import opened MemoryStores

  datatype Blueprint = Blueprint(resource: string, count: int, defaults: Record, fields: Record)
  datatype Seed = Seed(table: string, upsert: bool, rows: seq<Record>)
  datatype Registry = Registry(blueprints: seq<Blueprint>, seeds: seq<Seed>)

  /** Password hashing, which may fail and is salted anew on every run. */
  type Hasher = string -> Option<string>

  // ---------------------------------------------------------------------------
  // Normalizing and looking up
  // ---------------------------------------------------------------------------

  predicate IsAppConfig(resource: string) {
    ToLower(resource) == "appconfig" || ToLower(resource) == "bffx_app_config"
  }

  function HashedPassword(payload: Record, hash: Hasher): Option<Record> {
    if HasText(payload, "password") && !("$2" <= payload["password"].s) then
      match hash(payload["password"].s)
      case None => None
      case Some(h) => Some(payload["password" := Str(h)])
    else Some(payload)
  }

  /** Copies `a` to `b` where only `a` is set, or else `b` to `a`. */
  function Paired(r: Record, a: string, b: string): Record {
    if Cell(r, a) != Nil && Cell(r, b) == Nil then r[b := r[a]]
    else if Cell(r, b) != Nil && Cell(r, a) == Nil then r[a := r[b]]
    else r
  }

  function Harmonized(resource: string, payload: Record): Record {
    if IsAppConfig(resource) then Paired(Paired(payload, "key", "config_key"), "value", "config_value") else payload
  }

  function Normalized(resource: string, payload: Record, hash: Hasher): Option<Record> {
    match HashedPassword(payload, hash)
    case None => None
    case Some(p) => Some(Harmonized(resource, p))
  }

  /** The blueprint lookup: by email alone if there is one, else by AppConfig key. */
  predicate RecordExists(st: Store, resource: string, p: Record) {
    if HasText(p, "email") then HasMatch(st, resource, "email", p["email"].s)
    else IsAppConfig(resource) &&
         ((HasText(p, "key") && HasMatch(st, resource, "key", p["key"].s)) ||
          (HasText(p, "config_key") && HasMatch(st, resource, "config_key", p["config_key"].s)))
  }

  function SeedFields(table: string): seq<string> {
    ["code", "id", "email", "name"] + if IsAppConfig(table) then ["key", "config_key"] else []
  }

  predicate FieldMatches(st: Store, table: string, row: Record, field: string) {
    field in row && Show(row[field]) != "" && HasMatch(st, table, field, Show(row[field]))
  }

  /** The seed lookup: the first of the fields that is set and matches some row. */
  predicate SeedRowFound(st: Store, table: string, row: Record) {
    exists field <- SeedFields(table) :: FieldMatches(st, table, row, field)
  }

  // ---------------------------------------------------------------------------
  // A run without upsert, as a list of things to create
  // ---------------------------------------------------------------------------

  datatype Item = FromBlueprint(resource: string, payload: Record) | FromSeed(resource: string, payload: Record)

  datatype Outcome = Outcome(store: Store, failed: bool)

  predicate Found(st: Store, kind: Item, p: Record) {
    if kind.FromBlueprint? then RecordExists(st, kind.resource, p) else SeedRowFound(st, kind.resource, p)
  }

  /** One item: skipped when found, created when not; a failed hash ends the run. */
  function ItemRun(o: Outcome, item: Item, hash: Hasher, now: string): Outcome {
    if o.failed then o else
    match Normalized(item.resource, item.payload, hash)
    case None => Outcome(o.store, true)
    case Some(p) =>
      if Found(o.store, item, p) then o else Outcome(Created(o.store, item.resource, p, now), false)
  }

  function ItemsRun(o: Outcome, items: seq<Item>, hash: Hasher, now: string): Outcome
    decreases |items|
  {
    if items == [] then o else ItemRun(ItemsRun(o, items[..|items| - 1], hash, now), items[|items| - 1], hash, now)
  }

  function Repeated(item: Item, times: nat): seq<Item> {
    seq(times, _ => item)
  }

  function BlueprintItems(b: Blueprint): seq<Item> {
    if b.resource == "" then []
    else Repeated(FromBlueprint(b.resource, b.fields + b.defaults), if b.count <= 0 then 1 else b.count)
  }

  function RowItems(table: string, rows: seq<Record>): seq<Item>
    decreases |rows|
  {
    if rows == [] then [] else RowItems(table, rows[..|rows| - 1]) + [FromSeed(table, rows[|rows| - 1])]
  }

  lemma {:induction false} RowItemsAt(table: string, rows: seq<Record>)
    ensures |RowItems(table, rows)| == |rows|
    ensures forall i :: 0 <= i < |rows| ==> RowItems(table, rows)[i] == FromSeed(table, rows[i])
    decreases |rows|
  {
    if rows != [] { RowItemsAt(table, rows[..|rows| - 1]); }
  }

  function SeedItems(s: Seed): seq<Item> {
    if s.table == "" then [] else RowItems(s.table, s.rows)
  }

  function AllBlueprintItems(bs: seq<Blueprint>, n: nat): seq<Item>
    requires n <= |bs|
  {
    if n == 0 then [] else AllBlueprintItems(bs, n - 1) + BlueprintItems(bs[n - 1])
  }

  function AllSeedItems(ss: seq<Seed>, n: nat): seq<Item>
    requires n <= |ss|
  {
    if n == 0 then [] else AllSeedItems(ss, n - 1) + SeedItems(ss[n - 1])
  }

  function Items(reg: Registry): seq<Item> {
    AllBlueprintItems(reg.blueprints, |reg.blueprints|) + AllSeedItems(reg.seeds, |reg.seeds|)
  }

  function SeedRun(st: Store, reg: Registry, hash: Hasher, now: string): Outcome {
    ItemsRun(Outcome(st, false), Items(reg), hash, now)
  }

  // ---------------------------------------------------------------------------
  // When a second run does nothing
  // ---------------------------------------------------------------------------

  /** The item carries something its own lookup can find again. */
  predicate Identified(item: Item) {
    var p := Harmonized(item.resource, item.payload);
    if item.FromBlueprint? then
      HasText(p, "email") || (IsAppConfig(item.resource) && (HasText(p, "key") || HasText(p, "config_key")))
    else
      || HasText(p, "id")
      || (exists field <- SeedFields(item.resource) :: field != "id" && field in p && Show(p[field]) != "")
  }

  ghost predicate AllIdentified(items: seq<Item>) {
    forall i :: 0 <= i < |items| ==> Identified(items[i])
  }

  /** Ids the store generates from here on are unused. */
  ghost predicate CountersFresh(st: Store) {
    forall r, n: nat :: n > CounterOf(st, r) ==> NatText(n) !in TableOf(st, r)
  }

  predicate SameId(a: Item, b: Item) {
    a.resource == b.resource && ExplicitId(a.payload).Some? && ExplicitId(a.payload) == ExplicitId(b.payload)
  }

  predicate StoredIdIsFound(st: Store, item: Item) {
    item.FromBlueprint? && ExplicitId(item.payload).Some? &&
      ExplicitId(item.payload).value in TableOf(st, item.resource)
    ==> RecordExists(st, item.resource, Harmonized(item.resource, item.payload))
  }

  /** Explicit ids collide neither with generated ones, nor, for blueprints, whose lookup does
      not consult ids, with stored rows or other items. */
  ghost predicate IdsClear(st: Store, items: seq<Item>) {
    && CountersFresh(st)
    && (forall i, n: nat :: 0 <= i < |items| && n > CounterOf(st, items[i].resource) ==>
          ExplicitId(items[i].payload) != Some(NatText(n)))
    && (forall i :: 0 <= i < |items| ==> StoredIdIsFound(st, items[i]))
    && (forall i, j :: 0 <= i < j < |items| && items[j].FromBlueprint? && SameId(items[j], items[i]) ==>
          items[i] == items[j])
  }

  // ---------------------------------------------------------------------------
  // Lookups survive growth
  // ---------------------------------------------------------------------------

  /** Every row of `st` is still there, unchanged. */
  ghost predicate Grows(st: Store, st': Store) {
    forall r, id :: id in TableOf(st, r) ==> id in TableOf(st', r) && TableOf(st', r)[id] == TableOf(st, r)[id]
  }

  lemma MatchSurvives(st: Store, st': Store, resource: string, field: string, value: string)
    requires Grows(st, st') && HasMatch(st, resource, field, value)
    ensures HasMatch(st', resource, field, value)
  {
    var id :| id in IdsWith(TableOf(st, resource), field, value);
    assert id in IdsWith(TableOf(st', resource), field, value);
  }

  lemma FoundSurvives(st: Store, st': Store, item: Item, p: Record)
    requires Grows(st, st') && Found(st, item, p)
    ensures Found(st', item, p)
  {
    if item.FromSeed? {
      var field :| field in SeedFields(item.resource) && FieldMatches(st, item.resource, p, field);
      MatchSurvives(st, st', item.resource, field, Show(p[field]));
      assert FieldMatches(st', item.resource, p, field);
    } else if HasText(p, "email") {
      MatchSurvives(st, st', item.resource, "email", p["email"].s);
    } else if HasText(p, "key") && HasMatch(st, item.resource, "key", p["key"].s) {
      MatchSurvives(st, st', item.resource, "key", p["key"].s);
    } else {
      MatchSurvives(st, st', item.resource, "config_key", p["config_key"].s);
    }
  }

  ghost predicate SameBut(p: Record, q: Record, field: string) {
    forall f :: f != field ==> (f in p <==> f in q) && (f in p ==> p[f] == q[f])
  }

  lemma PairedSameBut(p: Record, q: Record, a: string, b: string)
    requires SameBut(p, q, "password") && a != "password" && b != "password"
    ensures SameBut(Paired(p, a, b), Paired(q, a, b), "password")
  {
    assert Cell(p, a) == Cell(q, a) && Cell(p, b) == Cell(q, b);
  }

  lemma NormalizedSameBut(resource: string, payload: Record, hash: Hasher, p: Record)
    requires Normalized(resource, payload, hash) == Some(p)
    ensures SameBut(p, Harmonized(resource, payload), "password")
  {
    var hashed := HashedPassword(payload, hash).value;
    assert SameBut(hashed, payload, "password");
    if IsAppConfig(resource) {
      PairedSameBut(hashed, payload, "key", "config_key");
      PairedSameBut(Paired(hashed, "key", "config_key"), Paired(payload, "key", "config_key"), "value", "config_value");
    }
  }

  lemma SameIsFound(st: Store, item: Item, p: Record, q: Record)
    requires SameBut(p, q, "password")
    ensures Found(st, item, p) == Found(st, item, q)
  {
    forall field | field in SeedFields(item.resource)
      ensures FieldMatches(st, item.resource, p, field) == FieldMatches(st, item.resource, q, field)
    {
      assert field != "password";
    }
  }

  /** No lookup consults the password, so a new salt changes no lookup. */
  lemma LookupIgnoresPassword(st: Store, item: Item, hash: Hasher, p: Record)
    requires Normalized(item.resource, item.payload, hash) == Some(p)
    ensures Found(st, item, p) == Found(st, item, Harmonized(item.resource, item.payload))
    ensures ExplicitId(p) == ExplicitId(item.payload)
  {
    NormalizedSameBut(item.resource, item.payload, hash, p);
    SameIsFound(st, item, p, Harmonized(item.resource, item.payload));
    assert "id" != "password" && "id" != "key" && "id" != "config_key" && "id" != "value" && "id" != "config_value";
  }

  lemma StampedMatches(st: Store, resource: string, p: Record, now: string, field: string)
    requires field in p && field != "created_at" && field != "updated_at" && (field == "id" ==> HasText(p, "id"))
    ensures HasMatch(Created(st, resource, p, now), resource, field, Show(p[field]))
  {
    var id := NewId(st, resource, p);
    assert id in IdsWith(TableOf(Created(st, resource, p, now), resource), field, Show(p[field]));
  }

  lemma CreatedIsFound(st: Store, item: Item, hash: Hasher, p: Record, now: string)
    requires Identified(item) && Normalized(item.resource, item.payload, hash) == Some(p)
    ensures Found(Created(st, item.resource, p, now), item, p)
  {
    var q := Harmonized(item.resource, item.payload);
    NormalizedSameBut(item.resource, item.payload, hash, p);
    if item.FromBlueprint? {
      var field := if HasText(q, "email") then "email" else if HasText(q, "key") then "key" else "config_key";
      assert HasText(p, field);
      StampedMatches(st, item.resource, p, now, field);
    } else {
      CreatedSeedIsFound(st, item.resource, p, q, now);
    }
  }

  lemma CreatedSeedIsFound(st: Store, table: string, p: Record, q: Record, now: string)
    requires SameBut(p, q, "password")
    requires HasText(q, "id") ||
             exists field <- SeedFields(table) :: field != "id" && field in q && Show(q[field]) != ""
    ensures SeedRowFound(Created(st, table, p, now), table, p)
  {
    hide Created;
    var field := "id";
    if !HasText(q, "id") {
      field :| field in SeedFields(table) && field != "id" && field in q && Show(q[field]) != "";
    }
    assert field in SeedFields(table) && field != "password";
    StampedMatches(st, table, p, now, field);
    assert FieldMatches(Created(st, table, p, now), table, p, field);
  }

  // ---------------------------------------------------------------------------
  // The first run
  // ---------------------------------------------------------------------------

  ghost predicate Carries(items: seq<Item>, i: nat, resource: string, id: string) {
    i < |items| && items[i].resource == resource && ExplicitId(items[i].payload) == Some(id)
  }

  ghost predicate GeneratedLater(st: Store, resource: string, id: string) {
    exists n: nat :: n > CounterOf(st, resource) && id == NatText(n)
  }

  /** A row was there at the start, or its id was generated, or some item carries its id. */
  ghost predicate Origin(start: Store, st: Store, items: seq<Item>) {
    forall r, id :: id in TableOf(st, r) ==>
      id in TableOf(start, r) || GeneratedLater(start, r, id) || exists i :: Carries(items, i, r, id)
  }

  ghost predicate AllFound(st: Store, items: seq<Item>) {
    forall i :: 0 <= i < |items| ==> Found(st, items[i], Harmonized(items[i].resource, items[i].payload))
  }

  ghost predicate RunInvariant(start: Store, st: Store, items: seq<Item>) {
    && Sound(st) && Grows(start, st) && CountersFresh(st)
    && (forall r :: CounterOf(start, r) <= CounterOf(st, r))
    && Origin(start, st, items)
    && AllFound(st, items)
  }

  lemma PrefixClear(st: Store, items: seq<Item>, item: Item)
    requires IdsClear(st, items + [item])
    ensures IdsClear(st, items)
  {
    var all := items + [item];
    assert forall i :: 0 <= i < |items| ==> items[i] == all[i];
  }

  /** An item that is not found lands on an unused id. */
  lemma NotFoundIsFresh(start: Store, st: Store, items: seq<Item>, item: Item, hash: Hasher, p: Record)
    requires RunInvariant(start, st, items) && IdsClear(start, items + [item])
    requires Normalized(item.resource, item.payload, hash) == Some(p) && !Found(st, item, p)
    ensures NewId(st, item.resource, p) !in TableOf(st, item.resource)
  {
    LookupIgnoresPassword(st, item, hash, p);
    var all := items + [item];
    assert all[|items|] == item;
    if ExplicitId(p).Some? {
      var id := ExplicitId(p).value;
      if item.FromSeed? {
        assert !FieldMatches(st, item.resource, p, "id");
        assert Keyed(TableOf(st, item.resource));
        assert id in TableOf(st, item.resource) ==> id in IdsWith(TableOf(st, item.resource), "id", id);
      } else if id in TableOf(st, item.resource) {
        BlueprintIdIsFound(start, st, items, item, id);
      }
    }
  }

  lemma BlueprintIdIsFound(start: Store, st: Store, items: seq<Item>, item: Item, id: string)
    requires RunInvariant(start, st, items) && IdsClear(start, items + [item])
    requires item.FromBlueprint? && ExplicitId(item.payload) == Some(id) && id in TableOf(st, item.resource)
    ensures Found(st, item, Harmonized(item.resource, item.payload))
  {
    var all := items + [item];
    assert all[|items|] == item;
    if id in TableOf(start, item.resource) {
      assert StoredIdIsFound(start, item);
      FoundSurvives(start, st, item, Harmonized(item.resource, item.payload));
    } else if i: nat :| Carries(items, i, item.resource, id) {
      assert all[i] == items[i] && SameId(item, items[i]);
    }
  }

  lemma CreatedGrows(start: Store, st: Store, resource: string, p: Record, now: string)
    requires Grows(start, st) && NewId(st, resource, p) !in TableOf(st, resource)
    ensures Grows(st, Created(st, resource, p, now)) && Grows(start, Created(st, resource, p, now))
  {}

  lemma AllFoundWithCreated(st: Store, items: seq<Item>, item: Item, hash: Hasher, p: Record, now: string)
    requires AllFound(st, items) && Identified(item) && NewId(st, item.resource, p) !in TableOf(st, item.resource)
    requires Normalized(item.resource, item.payload, hash) == Some(p)
    ensures AllFound(Created(st, item.resource, p, now), items + [item])
  {
    var st' := Created(st, item.resource, p, now);
    CreatedGrows(st, st, item.resource, p, now);
    CreatedIsFound(st, item, hash, p, now);
    LookupIgnoresPassword(st', item, hash, p);
    forall i | 0 <= i < |items| ensures Found(st', items[i], Harmonized(items[i].resource, items[i].payload)) {
      FoundSurvives(st, st', items[i], Harmonized(items[i].resource, items[i].payload));
    }
  }

  lemma CreateKeepsInvariant(start: Store, st: Store, items: seq<Item>, item: Item, hash: Hasher, p: Record,
                             now: string)
    requires RunInvariant(start, st, items) && IdsClear(start, items + [item]) && Identified(item)
    requires Normalized(item.resource, item.payload, hash) == Some(p) && !Found(st, item, p)
    ensures RunInvariant(start, Created(st, item.resource, p, now), items + [item])
  {
    NotFoundIsFresh(start, st, items, item, hash, p);
    LookupIgnoresPassword(st, item, hash, p);
    CreatedSound(st, item.resource, p, now);
    CreatedGrows(start, st, item.resource, p, now);
    CreatedStaysFresh(start, st, items + [item], p, now);
    CreatedOrigin(start, st, items, item, p, now);
    AllFoundWithCreated(st, items, item, hash, p, now);
  }

  lemma CreatedStaysFresh(start: Store, st: Store, all: seq<Item>, p: Record, now: string)
    requires CountersFresh(st) && IdsClear(start, all) && all != []
    requires forall r :: CounterOf(start, r) <= CounterOf(st, r)
    requires ExplicitId(p) == ExplicitId(all[|all| - 1].payload)
    ensures CountersFresh(Created(st, all[|all| - 1].resource, p, now))
  {
    var resource := all[|all| - 1].resource;
    var st' := Created(st, resource, p, now);
    forall r, n: nat | n > CounterOf(st', r) ensures NatText(n) !in TableOf(st', r) {
      assert CounterOf(start, r) <= CounterOf(st, r) <= CounterOf(st', r);
      if r == resource {
        assert ExplicitId(all[|all| - 1].payload) != Some(NatText(n));
        if NatText(n) == NatText(CounterOf(st, resource) + 1) {
          NatTextInjective(n, CounterOf(st, resource) + 1);
        }
      }
    }
  }

  lemma CreatedOrigin(start: Store, st: Store, items: seq<Item>, item: Item, p: Record, now: string)
    requires Origin(start, st, items) && ExplicitId(p) == ExplicitId(item.payload)
    requires forall r :: CounterOf(start, r) <= CounterOf(st, r)
    ensures Origin(start, Created(st, item.resource, p, now), items + [item])
  {
    var st' := Created(st, item.resource, p, now);
    var all := items + [item];
    forall r, id | id in TableOf(st', r)
      ensures id in TableOf(start, r) || GeneratedLater(start, r, id) || exists i :: Carries(all, i, r, id)
    {
      if r == item.resource && id == NewId(st, r, p) {
        if ExplicitId(p).Some? {
          assert Carries(all, |items|, r, id);
        } else {
          assert GeneratedLater(start, r, id);
        }
      } else if i :| Carries(items, i, r, id) {
        assert Carries(all, i, r, id);
      }
    }
  }

  lemma {:induction false} FirstRunFindsAll(start: Store, items: seq<Item>, hash: Hasher, now: string)
    requires Sound(start) && IdsClear(start, items)
    requires AllIdentified(items)
    requires !ItemsRun(Outcome(start, false), items, hash, now).failed
    ensures RunInvariant(start, ItemsRun(Outcome(start, false), items, hash, now).store, items)
    decreases |items|
  {
    hide ItemRun, RunInvariant, IdsClear, Identified;
    if items == [] {
      NothingToFind(start);
    } else {
      var most, item := items[..|items| - 1], items[|items| - 1];
      assert items == most + [item];
      PrefixClear(start, most, item);
      var o := ItemsRun(Outcome(start, false), most, hash, now);
      FailedItem(o, item, hash, now);
      FirstRunFindsAll(start, most, hash, now);
      OneMoreFound(start, o.store, most, item, hash, now);
    }
  }

  lemma NothingToFind(start: Store)
    requires Sound(start) && IdsClear(start, [])
    ensures RunInvariant(start, start, [])
  {}

  lemma FailedItem(o: Outcome, item: Item, hash: Hasher, now: string)
    ensures o.failed ==> ItemRun(o, item, hash, now).failed
  {}

  lemma OneMoreFound(start: Store, st: Store, items: seq<Item>, item: Item, hash: Hasher, now: string)
    requires RunInvariant(start, st, items) && IdsClear(start, items + [item]) && Identified(item)
    requires !ItemRun(Outcome(st, false), item, hash, now).failed
    ensures RunInvariant(start, ItemRun(Outcome(st, false), item, hash, now).store, items + [item])
  {
    hide Found, Harmonized, ExplicitId, Created, IdsClear, Identified;
    var p := Normalized(item.resource, item.payload, hash).value;
    if Found(st, item, p) {
      LookupIgnoresPassword(st, item, hash, p);
      forall r, id, i | Carries(items, i, r, id) ensures Carries(items + [item], i, r, id) {}
    } else {
      CreateKeepsInvariant(start, st, items, item, hash, p, now);
    }
  }

  // ---------------------------------------------------------------------------
  // The second run
  // ---------------------------------------------------------------------------

  lemma {:induction false} FoundItemsChangeNothing(st: Store, items: seq<Item>, hash: Hasher, now: string)
    requires AllFound(st, items)
    ensures ItemsRun(Outcome(st, false), items, hash, now).store == st
    decreases |items|
  {
    if items != [] {
      var most, item := items[..|items| - 1], items[|items| - 1];
      FoundItemsChangeNothing(st, most, hash, now);
      if p :| Normalized(item.resource, item.payload, hash) == Some(p) {
        LookupIgnoresPassword(st, item, hash, p);
      }
    }
  }

  /** A second run, with any salts and at any time, creates nothing and leaves the store,
      counters included, as the first run left it. */
  lemma SecondRunDoesNothing(st: Store, reg: Registry, hash: Hasher, now: string, hash': Hasher, now': string)
    requires Sound(st) && IdsClear(st, Items(reg))
    requires AllIdentified(Items(reg))
    requires !SeedRun(st, reg, hash, now).failed
    ensures SeedRun(SeedRun(st, reg, hash, now).store, reg, hash', now').store == SeedRun(st, reg, hash, now).store
  {
    FirstRunFindsAll(st, Items(reg), hash, now);
    FoundItemsChangeNothing(SeedRun(st, reg, hash, now).store, Items(reg), hash', now');
  }

  // ---------------------------------------------------------------------------
  // What lookups and payloads are, field by field
  // ---------------------------------------------------------------------------

  ghost predicate SomeRow(st: Store, resource: string, field: string, value: string) {
    exists id :: id in TableOf(st, resource) && Show(Cell(TableOf(st, resource)[id], field)) == value
  }

  lemma SomeRowIff(st: Store, resource: string, field: string, value: string)
    ensures HasMatch(st, resource, field, value) <==> SomeRow(st, resource, field, value)
  {
    if HasMatch(st, resource, field, value) {
      var id :| id in IdsWith(TableOf(st, resource), field, value);
    }
    if id :| id in TableOf(st, resource) && Show(Cell(TableOf(st, resource)[id], field)) == value {
      assert id in IdsWith(TableOf(st, resource), field, value);
    }
  }

  /** A seed row is found by any of four fields, or for AppConfig six, that is there and does not print as nothing. */
  lemma SeedRowFoundIff(st: Store, table: string, row: Record)
    ensures SeedRowFound(st, table, row) <==>
            exists field :: field in row && Show(row[field]) != "" && SomeRow(st, table, field, Show(row[field]))
              && (field in {"code", "id", "email", "name"} ||
                  (ToLower(table) in {"appconfig", "bffx_app_config"} && field in {"key", "config_key"}))
  {
    hide ToLower, HasMatch, SomeRow;
    forall field, value ensures HasMatch(st, table, field, value) <==> SomeRow(st, table, field, value) {
      SomeRowIff(st, table, field, value);
    }
    forall field
      ensures field in SeedFields(table) <==>
              field in {"code", "id", "email", "name"} || (IsAppConfig(table) && field in {"key", "config_key"})
    {
      SeedFieldIs(table, field);
    }
    forall field ensures FieldMatches(st, table, row, field) <==>
                         field in row && Show(row[field]) != "" && SomeRow(st, table, field, Show(row[field])) {}
  }

  lemma SeedFieldIs(table: string, field: string)
    ensures field in SeedFields(table) <==>
            field in {"code", "id", "email", "name"} || (IsAppConfig(table) && field in {"key", "config_key"})
  {
    hide ToLower, IsAppConfig;
  }

  /** A blueprint is found by its email alone, or without one, for AppConfig, by either key. */
  lemma RecordExistsIff(st: Store, resource: string, p: Record)
    ensures (exists email :: email != "" && Cell(p, "email") == Str(email)) ==>
              (RecordExists(st, resource, p) <==> SomeRow(st, resource, "email", Show(p["email"])))
    ensures !(exists email :: email != "" && Cell(p, "email") == Str(email)) ==>
              (RecordExists(st, resource, p) <==>
                 ToLower(resource) in {"appconfig", "bffx_app_config"} &&
                 exists field, value :: field in {"key", "config_key"} && value != "" && Cell(p, field) == Str(value)
                                        && SomeRow(st, resource, field, value))
  {
    hide ToLower, HasMatch, SomeRow;
    forall field, value ensures HasMatch(st, resource, field, value) <==> SomeRow(st, resource, field, value) {
      SomeRowIff(st, resource, field, value);
    }
  }

  /** A password that is neither empty nor a hash is hashed, and only a failure of that fails. */
  lemma HashedIs(payload: Record, hash: Hasher)
    ensures var password := Cell(payload, "password");
            var plain := password.Str? && password.s != "" && !("$2" <= password.s);
            && (HashedPassword(payload, hash) == None <==> plain && hash(password.s) == None)
            && forall p, f :: HashedPassword(payload, hash) == Some(p) ==>
                 Cell(p, f) == if f == "password" && plain then Str(hash(password.s).value) else Cell(payload, f)
  {}

  /** AppConfig keys and values stand in for their missing other names; nothing else changes. */
  lemma HarmonizedIs(resource: string, p: Record, f: string)
    ensures var config := ToLower(resource) in {"appconfig", "bffx_app_config"};
            Cell(Harmonized(resource, p), f) ==
            if config && f == "config_key" && Cell(p, f) == Nil then Cell(p, "key")
            else if config && f == "key" && Cell(p, f) == Nil then Cell(p, "config_key")
            else if config && f == "config_value" && Cell(p, f) == Nil then Cell(p, "value")
            else if config && f == "value" && Cell(p, f) == Nil then Cell(p, "config_value")
            else Cell(p, f)
  {
    hide ToLower;
  }

  /** A blueprint counts at least once; its defaults go before its fields. */
  lemma BlueprintItemsAre(b: Blueprint)
    ensures |BlueprintItems(b)| == if b.resource == "" then 0 else if b.count <= 0 then 1 else b.count
    ensures forall item, k :: item in BlueprintItems(b) ==>
              && item.FromBlueprint? && item.resource == b.resource
              && Cell(item.payload, k) == if k in b.defaults then b.defaults[k] else Cell(b.fields, k)
  {}

  // ---------------------------------------------------------------------------
  // When every run creates again
  // ---------------------------------------------------------------------------

  /** A seed row's id, if it has one, is text: another value is looked up but not stored. */
  predicate TextId(item: Item) {
    item.FromSeed? && "id" in item.payload ==> item.payload["id"].Str?
  }

  lemma UnidentifiedIsNeverFound(st: Store, item: Item, hash: Hasher, p: Record)
    requires !Identified(item) && TextId(item) && Normalized(item.resource, item.payload, hash) == Some(p)
    ensures !Found(st, item, p)
  {
    LookupIgnoresPassword(st, item, hash, p);
    var q := Harmonized(item.resource, item.payload);
    if item.FromSeed? {
      assert Cell(q, "id") == Cell(item.payload, "id");
      forall field | field in SeedFields(item.resource) ensures !FieldMatches(st, item.resource, q, field) {
        assert field == "id" ==> !HasText(q, "id");
      }
    }
  }

  lemma {:induction false} CountersNeverFall(o: Outcome, items: seq<Item>, hash: Hasher, now: string, resource: string)
    ensures CounterOf(o.store, resource) <= CounterOf(ItemsRun(o, items, hash, now).store, resource)
    decreases |items|
  {
    hide Found, Normalized, Stamped;
    if items != [] { CountersNeverFall(o, items[..|items| - 1], hash, now, resource); }
  }

  /** An unidentified item is created by every run that gets past it, so its counter rises. */
  lemma {:induction false} UnidentifiedRepeats(o: Outcome, items: seq<Item>, k: nat, hash: Hasher, now: string)
    requires k < |items| && !Identified(items[k]) && TextId(items[k])
    requires !ItemsRun(o, items, hash, now).failed
    ensures CounterOf(ItemsRun(o, items, hash, now).store, items[k].resource) > CounterOf(o.store, items[k].resource)
    decreases |items|
  {
    hide Found, Normalized, Identified, TextId, Stamped;
    var most, item := items[..|items| - 1], items[|items| - 1];
    if k < |most| {
      UnidentifiedRepeats(o, most, k, hash, now);
    } else {
      CountersNeverFall(o, most, hash, now, item.resource);
      var p := Normalized(item.resource, item.payload, hash).value;
      UnidentifiedIsNeverFound(ItemsRun(o, most, hash, now).store, item, hash, p);
    }
  }

  /** The first item that is not found is created by a run that gets past it, and its counter stays up. */
  lemma {:induction false} MissingItemRaises(st: Store, items: seq<Item>, k: nat, hash: Hasher, now: string)
    requires k < |items| && AllFound(st, items[..k])
    requires !Found(st, items[k], Harmonized(items[k].resource, items[k].payload))
    requires !ItemsRun(Outcome(st, false), items, hash, now).failed
    ensures CounterOf(ItemsRun(Outcome(st, false), items, hash, now).store, items[k].resource) >
            CounterOf(st, items[k].resource)
    decreases |items|
  {
    hide Found, Normalized, Harmonized, Stamped;
    var most, item := items[..|items| - 1], items[|items| - 1];
    if k < |most| {
      assert most[..k] == items[..k];
      MissingItemRaises(st, most, k, hash, now);
    } else {
      assert most == items[..k];
      FoundItemsChangeNothing(st, most, hash, now);
      LookupIgnoresPassword(st, item, hash, Normalized(item.resource, item.payload, hash).value);
    }
  }

  lemma FirstMissing(st: Store, items: seq<Item>) returns (k: nat)
    requires !AllFound(st, items)
    ensures k < |items| && AllFound(st, items[..k])
    ensures !Found(st, items[k], Harmonized(items[k].resource, items[k].payload))
  {
    hide Found, Harmonized;
    assert items[..|items|] == items;
    k := 0;
    while Found(st, items[k], Harmonized(items[k].resource, items[k].payload))
      invariant k < |items| && AllFound(st, items[..k])
      decreases |items| - k
    {
      assert items[..k + 1] == items[..k] + [items[k]];
      k := k + 1;
    }
  }

  /** Any run that succeeds leaves any store as it is, counters included, if and only if every item
      was there to be found. */
  lemma IdleIff(st: Store, items: seq<Item>, hash: Hasher, now: string)
    requires !ItemsRun(Outcome(st, false), items, hash, now).failed
    ensures ItemsRun(Outcome(st, false), items, hash, now).store == st <==> AllFound(st, items)
  {
    hide ItemRun, AllFound;
    if AllFound(st, items) {
      FoundItemsChangeNothing(st, items, hash, now);
    } else {
      var k := FirstMissing(st, items);
      MissingItemRaises(st, items, k, hash, now);
    }
  }

  /** Of two runs that both succeed, the second leaves the store and its counters as the first did if and
      only if the first left every item to be found; where explicit ids are clear and text, if and only if
      every item is identified. */
  lemma SecondRunIff(st: Store, reg: Registry, hash: Hasher, now: string, hash': Hasher, now': string)
    requires !SeedRun(st, reg, hash, now).failed
    requires !SeedRun(SeedRun(st, reg, hash, now).store, reg, hash', now').failed
    ensures var first := SeedRun(st, reg, hash, now).store;
            var second := SeedRun(first, reg, hash', now').store;
            && (second == first <==> AllFound(first, Items(reg)))
            && (Sound(st) && IdsClear(st, Items(reg)) && AllTextIds(Items(reg)) ==>
                  (second == first <==> AllIdentified(Items(reg))))
  {
    var first := SeedRun(st, reg, hash, now).store;
    IdleIff(first, Items(reg), hash', now');
    if Sound(st) && IdsClear(st, Items(reg)) && AllTextIds(Items(reg)) {
      if AllIdentified(Items(reg)) {
        SecondRunDoesNothing(st, reg, hash, now, hash', now');
      } else {
        var k :| 0 <= k < |Items(reg)| && !Identified(Items(reg)[k]);
        UnidentifiedRepeats(Outcome(first, false), Items(reg), k, hash', now');
      }
    }
  }

  ghost predicate AllTextIds(items: seq<Item>) {
    forall i :: 0 <= i < |items| ==> TextId(items[i])
  }

  // ---------------------------------------------------------------------------
  // The loops
  // ---------------------------------------------------------------------------

  lemma {:induction false} RunAppend(o: Outcome, a: seq<Item>, b: seq<Item>, hash: Hasher, now: string)
    ensures ItemsRun(o, a + b, hash, now) == ItemsRun(ItemsRun(o, a, hash, now), b, hash, now)
    decreases |b|
  {
    if b == [] {
      assert a + b == a;
    } else {
      assert (a + b)[..|a + b| - 1] == a + b[..|b| - 1];
      RunAppend(o, a, b[..|b| - 1], hash, now);
    }
  }

  lemma {:induction false} FailedStays(o: Outcome, items: seq<Item>, hash: Hasher, now: string)
    requires o.failed
    ensures ItemsRun(o, items, hash, now) == o
    decreases |items|
  {
    if items != [] { FailedStays(o, items[..|items| - 1], hash, now); }
  }

  lemma {:induction false} BlueprintPrefixFails(o: Outcome, bs: seq<Blueprint>, i: nat, hash: Hasher, now: string)
    requires i <= |bs| && ItemsRun(o, AllBlueprintItems(bs, i), hash, now).failed
    ensures ItemsRun(o, AllBlueprintItems(bs, |bs|), hash, now) == ItemsRun(o, AllBlueprintItems(bs, i), hash, now)
    decreases |bs| - i
  {
    if i < |bs| {
      RunAppend(o, AllBlueprintItems(bs, i), BlueprintItems(bs[i]), hash, now);
      FailedStays(ItemsRun(o, AllBlueprintItems(bs, i), hash, now), BlueprintItems(bs[i]), hash, now);
      BlueprintPrefixFails(o, bs, i + 1, hash, now);
    }
  }

  /** No row is removed. */
  ghost predicate KeepsIds(st: Store, st': Store) {
    forall r, id :: id in TableOf(st, r) ==> id in TableOf(st', r)
  }

  lemma NothingRemoved(st: Store)
    ensures KeepsIds(st, st)
  {}

  lemma IdsKeptThrough(a: Store, b: Store, c: Store)
    requires KeepsIds(a, b) && KeepsIds(b, c)
    ensures KeepsIds(a, c)
  {}

  lemma WritesKeepIds(st: Store, resource: string, now: string)
    ensures forall p :: KeepsIds(st, Created(st, resource, p, now))
    ensures forall id, p :: KeepsIds(st, Updated(st, resource, id, p, now))
  {}

  method LookUpRecord(store: MemoryStore, resource: string, payload: Record) returns (found: bool)
    ensures found == RecordExists(store.Contents(), resource, payload)
  {
    if HasText(payload, "email") {
      var record := store.GetByField(resource, "email", payload["email"].s);
      return record.Some?;
    }
    if IsAppConfig(resource) {
      if HasText(payload, "key") {
        var record := store.GetByField(resource, "key", payload["key"].s);
        if record.Some? {
          return true;
        }
      }
      if HasText(payload, "config_key") {
        var record := store.GetByField(resource, "config_key", payload["config_key"].s);
        if record.Some? {
          return true;
        }
      }
    }
    return false;
  }

  /** `id` is a row matched by the first lookup field that matches any. */
  ghost predicate FirstFound(st: Store, table: string, row: Record, id: string) {
    exists k :: FirstMatch(st, table, row, k) &&
      id in IdsWith(TableOf(st, table), SeedFields(table)[k], Show(row[SeedFields(table)[k]]))
  }

  ghost predicate FirstMatch(st: Store, table: string, row: Record, k: int) {
    && 0 <= k < |SeedFields(table)| && FieldMatches(st, table, row, SeedFields(table)[k])
    && forall j | 0 <= j < k :: !FieldMatches(st, table, row, SeedFields(table)[j])
  }

  /** The code is looked up before the id, the id before the email, the email before the name. */
  lemma FirstFoundIs(st: Store, table: string, row: Record, id: string)
    requires FirstFound(st, table, row, id)
    ensures var t := TableOf(st, table);
            if FieldMatches(st, table, row, "code") then id in IdsWith(t, "code", Show(row["code"]))
            else if FieldMatches(st, table, row, "id") then id in IdsWith(t, "id", Show(row["id"]))
            else if FieldMatches(st, table, row, "email") then id in IdsWith(t, "email", Show(row["email"]))
            else FieldMatches(st, table, row, "name") ==> id in IdsWith(t, "name", Show(row["name"]))
  {
    hide IdsWith, ToLower, HasMatch;
    var fields := SeedFields(table);
    assert fields[0] == "code" && fields[1] == "id" && fields[2] == "email" && fields[3] == "name";
    var k :| FirstMatch(st, table, row, k) && id in IdsWith(TableOf(st, table), fields[k], Show(row[fields[k]]));
  }

  method FindSeedRow(store: MemoryStore, table: string, row: Record) returns (id: string, found: bool)
    requires store.Valid()
    ensures found == SeedRowFound(store.Contents(), table, row)
    ensures found ==> FirstFound(store.Contents(), table, row, id) && id in TableOf(store.Contents(), table)
  {
    var fields := ["code", "id", "email", "name"];
    if IsAppConfig(table) {
      fields := fields + ["key", "config_key"];
    }
    assert fields == SeedFields(table);
    for i := 0 to |fields|
      invariant forall j :: 0 <= j < i ==> !FieldMatches(store.Contents(), table, row, fields[j])
    {
      if fields[i] in row && Show(row[fields[i]]) != "" {
        var existing := store.GetByField(table, fields[i], Show(row[fields[i]]));
        if existing.Some? {
          assert FirstMatch(store.Contents(), table, row, i);
          assert Keyed(TableOf(store.Contents(), table));
          var existingId := Cell(existing.value, "id");
          return if existingId.Str? then existingId.s else "", true;
        }
      }
    }
    return "", false;
  }

  /** One round of a blueprint. */
  method SeedBlueprintOnce(store: MemoryStore, resource: string, payload: Record, hash: Hasher, now: string)
    returns (ok: bool)
    requires store.Valid()
    modifies store
    ensures store.Valid() && KeepsIds(old(store.Contents()), store.Contents())
    ensures Outcome(store.Contents(), !ok) ==
            ItemRun(Outcome(old(store.Contents()), false), FromBlueprint(resource, payload), hash, now)
  {
    var normal := Normalized(resource, payload, hash);
    if normal.None? {
      return false;
    }
    var skip := LookUpRecord(store, resource, normal.value);
    if !skip {
      var _ := store.Create(resource, normal.value, now);
    }
    return true;
  }

  /** With upsert the row found is updated; only a row without an id cannot be. */
  ghost predicate Upserted(st: Store, table: string, normal: Option<Record>, now: string, st': Store, ok: bool) {
    match normal
    case None => !ok && st' == st
    case Some(p) =>
      if !SeedRowFound(st, table, p) then ok && st' == Created(st, table, p, now)
      else
        exists id :: FirstFound(st, table, p, id) && ok == (id != "") &&
                     st' == if ok then Updated(st, table, id, p, now) else st
  }

  // Runs with upsert, in which the row updated is one of those found ----------

  datatype Step = Step(table: string, row: Record, upsert: bool)

  ghost predicate RowRuns(o: Outcome, step: Step, hash: Hasher, now: string, o': Outcome) {
    if o.failed then o' == o
    else if step.upsert then
      Upserted(o.store, step.table, Normalized(step.table, step.row, hash), now, o'.store, !o'.failed)
    else o' == ItemRun(o, FromSeed(step.table, step.row), hash, now)
  }

  ghost predicate StepsRun(o: Outcome, steps: seq<Step>, hash: Hasher, now: string, o': Outcome)
    decreases |steps|
  {
    if steps == [] then o' == o
    else
      var most, last := steps[..|steps| - 1], steps[|steps| - 1];
      exists mid :: StepsRun(o, most, hash, now, mid) && RowRuns(mid, last, hash, now, o')
  }

  function TableSteps(s: Seed, upsert: bool): seq<Step> {
    if s.table == "" then [] else seq(|s.rows|, i requires 0 <= i < |s.rows| => Step(s.table, s.rows[i], upsert))
  }

  /** The rows of the first `n` tables; each table may ask for upsert, or all do. */
  function SeedSteps(ss: seq<Seed>, n: nat, upsert: bool): seq<Step>
    requires n <= |ss|
  {
    if n == 0 then [] else SeedSteps(ss, n - 1, upsert) + TableSteps(ss[n - 1], upsert || ss[n - 1].upsert)
  }

  lemma StepsSnoc(o: Outcome, steps: seq<Step>, step: Step, hash: Hasher, now: string, mid: Outcome, o': Outcome)
    requires StepsRun(o, steps, hash, now, mid) && RowRuns(mid, step, hash, now, o')
    ensures StepsRun(o, steps + [step], hash, now, o')
  {
    assert (steps + [step])[..|steps|] == steps;
  }

  lemma {:induction false} StepsAppend(o: Outcome, a: seq<Step>, b: seq<Step>, hash: Hasher, now: string,
                                       mid: Outcome, o': Outcome)
    requires StepsRun(o, a, hash, now, mid) && StepsRun(mid, b, hash, now, o')
    ensures StepsRun(o, a + b, hash, now, o')
    decreases |b|
  {
    hide RowRuns;
    if b == [] {
      assert a + b == a;
    } else {
      var most, last := b[..|b| - 1], b[|b| - 1];
      var before :| StepsRun(mid, most, hash, now, before) && RowRuns(before, last, hash, now, o');
      StepsAppend(o, a, most, hash, now, mid, before);
      StepsSnoc(o, a + most, last, hash, now, before, o');
      assert a + b == (a + most) + [last];
    }
  }

  lemma {:induction false} FailedRun(o: Outcome, steps: seq<Step>, hash: Hasher, now: string)
    requires o.failed
    ensures StepsRun(o, steps, hash, now, o)
    decreases |steps|
  {
    if steps != [] { FailedRun(o, steps[..|steps| - 1], hash, now); }
  }

  function ItemsOf(steps: seq<Step>): seq<Item> {
    seq(|steps|, i requires 0 <= i < |steps| => FromSeed(steps[i].table, steps[i].row))
  }

  /** Without upsert there is one outcome, that of the items. */
  lemma {:induction false} PlainSteps(o: Outcome, steps: seq<Step>, hash: Hasher, now: string, o': Outcome)
    requires StepsRun(o, steps, hash, now, o') && forall step :: step in steps ==> !step.upsert
    ensures o' == ItemsRun(o, ItemsOf(steps), hash, now)
    decreases |steps|
  {
    hide Found, Normalized, Created, Upserted;
    if steps != [] {
      var most, last := steps[..|steps| - 1], steps[|steps| - 1];
      var mid :| StepsRun(o, most, hash, now, mid) && RowRuns(mid, last, hash, now, o');
      PlainSteps(o, most, hash, now, mid);
      assert ItemsOf(steps)[..|most|] == ItemsOf(most);
      assert mid.failed ==> ItemRun(mid, FromSeed(last.table, last.row), hash, now) == mid;
    }
  }

  lemma TableStepsAreItems(s: Seed)
    ensures ItemsOf(TableSteps(s, false)) == SeedItems(s)
  {
    RowItemsAt(s.table, s.rows);
  }

  lemma ItemsOfAppend(a: seq<Step>, b: seq<Step>)
    ensures ItemsOf(a + b) == ItemsOf(a) + ItemsOf(b)
  {}

  lemma {:induction false} SeedStepsAreItems(ss: seq<Seed>, n: nat)
    requires n <= |ss| && NoUpsert(ss)
    ensures ItemsOf(SeedSteps(ss, n, false)) == AllSeedItems(ss, n)
    ensures forall step :: step in SeedSteps(ss, n, false) ==> !step.upsert
  {
    hide ItemsOf, SeedItems;
    if n == 0 {
      NoItems();
    } else {
      SeedStepsAreItems(ss, n - 1);
      TableStepsAreItems(ss[n - 1]);
      ItemsOfAppend(SeedSteps(ss, n - 1, false), TableSteps(ss[n - 1], false));
    }
  }

  lemma NoItems()
    ensures ItemsOf([]) == []
  {}

  /** One seed row; with upsert a found row is updated instead of skipped. */
  method SeedRow(store: MemoryStore, table: string, row: Record, upsert: bool, hash: Hasher, now: string)
    returns (ok: bool)
    requires store.Valid()
    modifies store
    ensures store.Valid() && KeepsIds(old(store.Contents()), store.Contents())
    ensures RowRuns(Outcome(old(store.Contents()), false), Step(table, row, upsert), hash, now,
            Outcome(store.Contents(), !ok))
  {
    hide Normalized, SeedRowFound, FirstFound, Created, Updated;
    WritesKeepIds(store.Contents(), table, now);
    var normal := Normalized(table, row, hash);
    if normal.None? {
      return false;
    }
    var existingId, found := FindSeedRow(store, table, normal.value);
    if found {
      if !upsert {
        return true;
      }
      if existingId == "" {
        return false;
      }
      var updated := store.Update(table, existingId, normal.value, now);
      return updated.Some?;
    }
    var _ := store.Create(table, normal.value, now);
    return true;
  }

  method SeedBlueprint(store: MemoryStore, b: Blueprint, hash: Hasher, now: string) returns (ok: bool)
    requires store.Valid()
    modifies store
    ensures store.Valid() && KeepsIds(old(store.Contents()), store.Contents())
    ensures Outcome(store.Contents(), !ok) ==
            ItemsRun(Outcome(old(store.Contents()), false), BlueprintItems(b), hash, now)
  {
    hide ItemRun, KeepsIds;
    ghost var start := Outcome(store.Contents(), false);
    NothingRemoved(start.store);
    if b.resource == "" {
      return true;
    }
    var count := b.count;
    if count <= 0 {
      count := 1;
    }
    var payload := b.fields + b.defaults;
    ghost var items := BlueprintItems(b);
    ok := true;
    var i := 0;
    while i < count && ok
      invariant 0 <= i <= count && store.Valid() && KeepsIds(start.store, store.Contents())
      invariant Outcome(store.Contents(), !ok) == ItemsRun(start, items[..i], hash, now)
    {
      assert items[..i + 1][..i] == items[..i];
      ghost var mid := store.Contents();
      ok := SeedBlueprintOnce(store, b.resource, payload, hash, now);
      IdsKeptThrough(start.store, mid, store.Contents());
      i := i + 1;
    }
    PrefixDecides(start, items, i, hash, now);
  }

  /** Once a prefix has failed, or is everything, it decides the whole run. */
  lemma PrefixDecides(o: Outcome, items: seq<Item>, i: nat, hash: Hasher, now: string)
    requires i <= |items| && (i == |items| || ItemsRun(o, items[..i], hash, now).failed)
    ensures ItemsRun(o, items, hash, now) == ItemsRun(o, items[..i], hash, now)
  {
    assert items == items[..i] + items[i..];
    RunAppend(o, items[..i], items[i..], hash, now);
    if i < |items| {
      FailedStays(ItemsRun(o, items[..i], hash, now), items[i..], hash, now);
    }
  }

  /** The row loop of one seed, stopped at an error. */
  method SeedTable(store: MemoryStore, s: Seed, upsert: bool, hash: Hasher, now: string) returns (ok: bool)
    requires store.Valid()
    modifies store
    ensures store.Valid() && KeepsIds(old(store.Contents()), store.Contents())
    ensures StepsRun(Outcome(old(store.Contents()), false), TableSteps(s, upsert), hash, now,
            Outcome(store.Contents(), !ok))
  {
    hide RowRuns;
    ghost var start := Outcome(store.Contents(), false);
    if s.table == "" {
      return true;
    }
    ghost var steps := TableSteps(s, upsert);
    ok := true;
    var i := 0;
    while i < |s.rows| && ok
      invariant 0 <= i <= |s.rows| && store.Valid() && KeepsIds(start.store, store.Contents())
      invariant StepsRun(start, steps[..i], hash, now, Outcome(store.Contents(), !ok))
    {
      ghost var mid := Outcome(store.Contents(), false);
      ok := SeedRow(store, s.table, s.rows[i], upsert, hash, now);
      StepsSnoc(start, steps[..i], steps[i], hash, now, mid, Outcome(store.Contents(), !ok));
      assert steps[..i + 1] == steps[..i] + [steps[i]];
      i := i + 1;
    }
    StopsAt(start, steps, i, hash, now, Outcome(store.Contents(), !ok));
  }

  /** Once a prefix has failed, or is everything, it decides the whole run. */
  lemma StopsAt(o: Outcome, steps: seq<Step>, i: nat, hash: Hasher, now: string, o': Outcome)
    requires i <= |steps| && StepsRun(o, steps[..i], hash, now, o') && (i == |steps| || o'.failed)
    ensures StepsRun(o, steps, hash, now, o')
  {
    hide StepsRun;
    assert steps == steps[..i] + steps[i..];
    if i == |steps| {
      assert steps[..i] == steps;
    } else {
      FailedRun(o', steps[i..], hash, now);
      StepsAppend(o, steps[..i], steps[i..], hash, now, o', o');
    }
  }

  predicate NoUpsert(ss: seq<Seed>) {
    forall i | 0 <= i < |ss| :: !ss[i].upsert
  }

  /** The blueprints, then the seed rows in order, stopped at the first error; without upsert that is
      the run over the items. */
  method SeedRegistry(store: MemoryStore, reg: Option<Registry>, upsert: bool, hash: Hasher, now: string)
    returns (ok: bool)
    requires store.Valid()
    modifies store
    ensures store.Valid() && KeepsIds(old(store.Contents()), store.Contents())
    ensures reg.None? ==> !ok && store.Contents() == old(store.Contents())
    ensures reg.Some? ==>
              var bs, ss := reg.value.blueprints, reg.value.seeds;
              StepsRun(ItemsRun(Outcome(old(store.Contents()), false), AllBlueprintItems(bs, |bs|), hash, now),
                       SeedSteps(ss, |ss|, upsert), hash, now, Outcome(store.Contents(), !ok))
    ensures reg.Some? && !upsert && NoUpsert(reg.value.seeds) ==>
              Outcome(store.Contents(), !ok) == SeedRun(old(store.Contents()), reg.value, hash, now)
  {
    hide StepsRun, ItemsRun;
    if reg.None? {
      return false;
    }
    ghost var start := Outcome(store.Contents(), false);
    ok := SeedBlueprints(store, reg.value.blueprints, hash, now);
    ghost var middle := Outcome(store.Contents(), !ok);
    ghost var bs, ss := reg.value.blueprints, reg.value.seeds;
    if ok {
      ok := SeedTables(store, reg.value.seeds, upsert, hash, now);
    } else {
      FailedRun(middle, SeedSteps(ss, |ss|, upsert), hash, now);
    }
    if !upsert && NoUpsert(ss) {
      SeedStepsAreItems(ss, |ss|);
      PlainSteps(middle, SeedSteps(ss, |ss|, false), hash, now, Outcome(store.Contents(), !ok));
      RunAppend(start, AllBlueprintItems(bs, |bs|), AllSeedItems(ss, |ss|), hash, now);
    }
  }

  method SeedBlueprints(store: MemoryStore, bs: seq<Blueprint>, hash: Hasher, now: string) returns (ok: bool)
    requires store.Valid()
    modifies store
    ensures store.Valid() && KeepsIds(old(store.Contents()), store.Contents())
    ensures Outcome(store.Contents(), !ok) ==
            ItemsRun(Outcome(old(store.Contents()), false), AllBlueprintItems(bs, |bs|), hash, now)
  {
    hide ItemRun, BlueprintItems;
    ghost var start := Outcome(store.Contents(), false);
    ok := true;
    var i := 0;
    while i < |bs| && ok
      invariant 0 <= i <= |bs| && store.Valid() && KeepsIds(start.store, store.Contents())
      invariant Outcome(store.Contents(), !ok) == ItemsRun(start, AllBlueprintItems(bs, i), hash, now)
    {
      RunAppend(start, AllBlueprintItems(bs, i), BlueprintItems(bs[i]), hash, now);
      ok := SeedBlueprint(store, bs[i], hash, now);
      i := i + 1;
    }
    if !ok {
      BlueprintPrefixFails(start, bs, i, hash, now);
    }
  }

  method SeedTables(store: MemoryStore, ss: seq<Seed>, upsert: bool, hash: Hasher, now: string) returns (ok: bool)
    requires store.Valid()
    modifies store
    ensures store.Valid() && KeepsIds(old(store.Contents()), store.Contents())
    ensures StepsRun(Outcome(old(store.Contents()), false), SeedSteps(ss, |ss|, upsert), hash, now,
                     Outcome(store.Contents(), !ok))
  {
    hide RowRuns, TableSteps;
    ghost var start := Outcome(store.Contents(), false);
    ok := true;
    var i := 0;
    while i < |ss| && ok
      invariant 0 <= i <= |ss| && store.Valid() && KeepsIds(start.store, store.Contents())
      invariant StepsRun(start, SeedSteps(ss, i, upsert), hash, now, Outcome(store.Contents(), !ok))
    {
      ghost var mid := Outcome(store.Contents(), false);
      ok := SeedTable(store, ss[i], upsert || ss[i].upsert, hash, now);
      StepsAppend(start, SeedSteps(ss, i, upsert), TableSteps(ss[i], upsert || ss[i].upsert), hash, now, mid,
                  Outcome(store.Contents(), !ok));
      i := i + 1;
    }
    if !ok {
      TablesStop(start, ss, i, upsert, hash, now, Outcome(store.Contents(), true));
    }
  }

  lemma {:induction false} TablesStop(o: Outcome, ss: seq<Seed>, i: nat, upsert: bool, hash: Hasher, now: string,
                                      o': Outcome)
    requires i <= |ss| && StepsRun(o, SeedSteps(ss, i, upsert), hash, now, o') && o'.failed
    ensures StepsRun(o, SeedSteps(ss, |ss|, upsert), hash, now, o')
    decreases |ss| - i
  {
    if i < |ss| {
      var more := TableSteps(ss[i], upsert || ss[i].upsert);
      FailedRun(o', more, hash, now);
      StepsAppend(o, SeedSteps(ss, i, upsert), more, hash, now, o', o');
      TablesStop(o, ss, i + 1, upsert, hash, now, o');
    }
  }
}
