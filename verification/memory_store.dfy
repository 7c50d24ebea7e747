/** The in-memory store: per resource a counter for generated ids and a table of records. */
module MemoryStores {
  import opened Options
  import opened Text

  /** A field value: nil, a string, or any other value, known by how `%v` prints it. */
  datatype Val = Nil | Str(s: string) | Other(shown: string)

  type Record = map<string, Val>
  type Table = map<string, Record>

  datatype Store = Store(counters: map<string, nat>, data: map<string, Table>)

  const EMPTY := Store(map[], map[])

  // ---------------------------------------------------------------------------
  // Reading
  // ---------------------------------------------------------------------------

  function Show(v: Val): string {
    match v
    case Nil => "<nil>"
    case Str(s) => s
    case Other(shown) => shown
  }

  function Cell(r: Record, field: string): Val {
    if field in r then r[field] else Nil
  }

  predicate HasText(r: Record, field: string) {
    field in r && r[field].Str? && r[field].s != ""
  }

  function TableOf(st: Store, resource: string): Table {
    if resource in st.data then st.data[resource] else map[]
  }

  function CounterOf(st: Store, resource: string): nat {
    if resource in st.counters then st.counters[resource] else 0
  }

  /** The ids of the rows whose field prints as `value`. */
  function IdsWith(t: Table, field: string, value: string): set<string> {
    set id | id in t && Show(Cell(t[id], field)) == value
  }

  predicate HasMatch(st: Store, resource: string, field: string, value: string) {
    IdsWith(TableOf(st, resource), field, value) != {}
  }

  function Fetch(t: Table, ids: seq<string>): seq<Record>
    requires forall id :: id in ids ==> id in t
  {
    seq(|ids|, i requires 0 <= i < |ids| => t[ids[i]])
  }

  function Page<T>(all: seq<T>, offset: int, limit: int): seq<T> {
    var rest := if offset >= |all| then [] else if offset > 0 then all[offset..] else all;
    if 0 < limit < |rest| then rest[..limit] else rest
  }

  /** A page starts at the offset and holds at most the limit, if there is one, or else all the rest. */
  lemma PageIs<T>(all: seq<T>, offset: int, limit: int)
    ensures var from, page := if offset > 0 then offset else 0, Page(all, offset, limit);
            && (from >= |all| ==> page == [])
            && (from < |all| ==> |page| == if 0 < limit < |all| - from then limit else |all| - from)
            && forall i :: 0 <= i < |page| ==> from + i < |all| && page[i] == all[from + i]
  {}

  /** `all` lists the members of `ids`, each once, in some order. */
  ghost predicate Enumerates(all: seq<string>, ids: set<string>) {
    multiset(all) == multiset(ids)
  }

  lemma EnumeratesMembers(all: seq<string>, ids: set<string>)
    requires Enumerates(all, ids)
    ensures forall id :: id in all <==> id in ids
    ensures |all| == |ids|
  {
    forall id ensures id in all <==> id in ids {
      assert id in all <==> id in multiset(all);
    }
    assert |multiset(all)| == |all| && |multiset(ids)| == |ids|;
  }

  lemma EnumeratesOneMore(all: seq<string>, ids: set<string>, id: string)
    requires Enumerates(all, ids) && id !in ids
    ensures Enumerates(all + [id], ids + {id})
  {}

  // ---------------------------------------------------------------------------
  // Writing
  // ---------------------------------------------------------------------------

  function ExplicitId(payload: Record): Option<string> {
    if "id" in payload && payload["id"].Str? && payload["id"].s != "" then Some(payload["id"].s) else None
  }

  function NewId(st: Store, resource: string, payload: Record): string {
    match ExplicitId(payload)
    case Some(id) => id
    case None => NatText(CounterOf(st, resource) + 1)
  }

  function Stamped(payload: Record, id: string, now: string): Record {
    payload["id" := Str(id)]["created_at" := Str(now)]["updated_at" := Str(now)]
  }

  function Created(st: Store, resource: string, payload: Record, now: string): Store {
    var id := NewId(st, resource, payload);
    Store(st.counters[resource := CounterOf(st, resource) + 1],
          st.data[resource := TableOf(st, resource)[id := Stamped(payload, id, now)]])
  }

  /** `id` and `created_at` cannot be changed; `updated_at` always is. */
  function Patched(r: Record, payload: Record, now: string): Record {
    (r + (payload - {"id", "created_at"}))["updated_at" := Str(now)]
  }

  function Updated(st: Store, resource: string, id: string, payload: Record, now: string): Store {
    if id in TableOf(st, resource) then
      st.(data := st.data[resource := TableOf(st, resource)[id := Patched(TableOf(st, resource)[id], payload, now)]])
    else st
  }

  function Deleted(st: Store, resource: string, id: string): Store {
    if id in TableOf(st, resource) then st.(data := st.data[resource := TableOf(st, resource) - {id}]) else st
  }

  /** Every other row of every resource is as it was. */
  ghost predicate OthersSame(st: Store, st': Store, resource: string, id: string) {
    forall r, x :: r != resource || x != id ==>
      && (x in TableOf(st', r) <==> x in TableOf(st, r))
      && (x in TableOf(st, r) ==> TableOf(st', r)[x] == TableOf(st, r)[x])
  }

  /** A payload's text id is taken; without one the id is the count of creations.  Both times are stamped. */
  lemma CreatedMeans(st: Store, resource: string, payload: Record, now: string)
    ensures var st', id := Created(st, resource, payload, now), NewId(st, resource, payload);
            && id == (if "id" in payload && payload["id"].Str? && payload["id"].s != "" then payload["id"].s
                      else NatText(CounterOf(st, resource) + 1))
            && OthersSame(st, st', resource, id) && id in TableOf(st', resource)
            && (forall r :: CounterOf(st', r) == CounterOf(st, r) + if r == resource then 1 else 0)
            && forall f :: Cell(TableOf(st', resource)[id], f) ==
                 if f == "id" then Str(id) else if f == "created_at" || f == "updated_at" then Str(now)
                 else Cell(payload, f)
  {}

  /** The payload's fields replace the row's, but for its id and creation time; the update time is stamped. */
  lemma UpdatedMeans(st: Store, resource: string, id: string, payload: Record, now: string)
    requires id in TableOf(st, resource)
    ensures var st', row := Updated(st, resource, id, payload, now), TableOf(st, resource)[id];
            && OthersSame(st, st', resource, id) && id in TableOf(st', resource) && st'.counters == st.counters
            && forall f :: Cell(TableOf(st', resource)[id], f) ==
                 if f == "updated_at" then Str(now)
                 else if f in payload && f != "id" && f != "created_at" then payload[f]
                 else Cell(row, f)
  {}

  lemma DeletedMeans(st: Store, resource: string, id: string)
    ensures var st' := Deleted(st, resource, id);
            OthersSame(st, st', resource, id) && id !in TableOf(st', resource) && st'.counters == st.counters
  {}

  /** Every row carries its own key in `id`. */
  ghost predicate Keyed(t: Table) {
    forall id :: id in t ==> Cell(t[id], "id") == Str(id)
  }

  ghost predicate Sound(st: Store) {
    forall resource :: resource in st.data ==> Keyed(st.data[resource])
  }

  lemma CreatedSound(st: Store, resource: string, payload: Record, now: string)
    requires Sound(st)
    ensures Sound(Created(st, resource, payload, now))
  {
    assert Keyed(TableOf(st, resource));
  }

  lemma UpdatedSound(st: Store, resource: string, id: string, payload: Record, now: string)
    requires Sound(st)
    ensures Sound(Updated(st, resource, id, payload, now))
  {
    var t := TableOf(st, resource);
    if id in t {
      assert Keyed(t[id := Patched(t[id], payload, now)]);
    }
  }

  lemma DeletedSound(st: Store, resource: string, id: string)
    requires Sound(st)
    ensures Sound(Deleted(st, resource, id))
  {
    assert Keyed(TableOf(st, resource));
  }

  // ---------------------------------------------------------------------------
  // The store object
  // ---------------------------------------------------------------------------

  class MemoryStore {
    var counters: map<string, nat>
    var data: map<string, Table>

    ghost function Contents(): Store
      reads this
    {
      Store(counters, data)
    }

    ghost predicate Valid()
      reads this
    {
      Sound(Contents())
    }

    constructor ()
      ensures Valid() && Contents() == EMPTY
    {
      counters, data := map[], map[];
    }

    method Get(resource: string, id: string) returns (record: Option<Record>)
      ensures record == if id in TableOf(Contents(), resource) then Some(TableOf(Contents(), resource)[id]) else None
    {
      if resource in data && id in data[resource] {
        return Some(data[resource][id]);
      }
      return None;
    }

    /** Some row whose field prints as `value`, if there is one. */
    method GetByField(resource: string, field: string, value: string) returns (record: Option<Record>)
      ensures record.Some? <==> HasMatch(Contents(), resource, field, value)
      ensures record.Some? ==> exists id :: id in IdsWith(TableOf(Contents(), resource), field, value)
                                           && record.value == TableOf(Contents(), resource)[id]
    {
      if resource !in data {
        return None;
      }
      var records := data[resource];
      var rest := records.Keys;
      while rest != {}
        invariant rest <= records.Keys
        invariant forall id :: id in records.Keys - rest ==> Show(Cell(records[id], field)) != value
      {
        var id :| id in rest;
        if Show(Cell(records[id], field)) == value {
          assert id in IdsWith(records, field, value);
          return Some(records[id]);
        }
        rest := rest - {id};
      }
      return None;
    }

    method Create(resource: string, payload: Record, now: string) returns (record: Record)
      requires Valid()
      modifies this
      ensures Valid() && Contents() == Created(old(Contents()), resource, payload, now)
      ensures record == Stamped(payload, NewId(old(Contents()), resource, payload), now)
    {
      CreatedSound(Contents(), resource, payload, now);
      var n := (if resource in counters then counters[resource] else 0) + 1;
      counters := counters[resource := n];
      var id := NatText(n);
      if "id" in payload && payload["id"].Str? && payload["id"].s != "" {
        id := payload["id"].s;
      }
      var records := if resource in data then data[resource] else map[];
      record := payload["id" := Str(id)];
      record := record["created_at" := Str(now)]["updated_at" := Str(now)];
      data := data[resource := records[id := record]];
    }

    method Update(resource: string, id: string, payload: Record, now: string) returns (record: Option<Record>)
      requires Valid()
      modifies this`data
      ensures Valid() && Contents() == Updated(old(Contents()), resource, id, payload, now)
      ensures record.Some? <==> id in TableOf(old(Contents()), resource)
      ensures record.Some? ==> record.value == TableOf(Contents(), resource)[id]
    {
      UpdatedSound(Contents(), resource, id, payload, now);
      if resource !in data || id !in data[resource] {
        return None;
      }
      var row := MergeFields(data[resource][id], payload);
      row := row["updated_at" := Str(now)];
      data := data[resource := data[resource][id := row]];
      return Some(row);
    }

    method Delete(resource: string, id: string) returns (found: bool)
      requires Valid()
      modifies this`data
      ensures Valid() && Contents() == Deleted(old(Contents()), resource, id)
      ensures found <==> id in TableOf(old(Contents()), resource)
    {
      DeletedSound(Contents(), resource, id);
      if resource !in data || id !in data[resource] {
        return false;
      }
      data := data[resource := data[resource] - {id}];
      return true;
    }

    /** The rows created by `owner`, in some order, paged. */
    method ListByOwner(resource: string, owner: string, limit: int, offset: nat)
      returns (rows: seq<Record>, ghost ids: seq<string>)
      ensures Enumerates(ids, IdsWith(TableOf(Contents(), resource), "created_by", owner))
      ensures forall id :: id in ids ==> id in TableOf(Contents(), resource)
      ensures rows == Page(Fetch(TableOf(Contents(), resource), ids), offset, limit)
      ensures exists all :: Enumerates(all, IdsWith(TableOf(Contents(), resource), "created_by", owner)) &&
                            (forall id :: id in all ==> id in TableOf(Contents(), resource)) &&
                            rows == Page(Fetch(TableOf(Contents(), resource), all), offset, limit)
    {
      var records := if resource in data then data[resource] else map[];
      rows, ids := RowsOwnedBy(records, owner);
      if offset >= |rows| {
        rows := [];
      } else {
        var end := offset + limit;
        if limit <= 0 || end > |rows| {
          end := |rows|;
        }
        rows := rows[offset..end];
      }
    }
  }

  /** The field loop of Update. */
  method MergeFields(record: Record, payload: Record) returns (row: Record)
    ensures row == record + (payload - {"id", "created_at"})
  {
    row := record;
    var rest := payload.Keys;
    while rest != {}
      invariant rest <= payload.Keys
      invariant row == record + ((payload - {"id", "created_at"}) - rest)
    {
      var k :| k in rest;
      if k != "id" && k != "created_at" {
        MergeOneMore(record, payload - {"id", "created_at"}, rest, k);
        row := row[k := payload[k]];
      } else {
        assert (payload - {"id", "created_at"}) - rest == (payload - {"id", "created_at"}) - (rest - {k});
      }
      rest := rest - {k};
    }
    assert (payload - {"id", "created_at"}) - {} == payload - {"id", "created_at"};
  }

  lemma MergeOneMore(record: Record, fields: Record, rest: set<string>, k: string)
    requires k in rest && k in fields
    ensures (record + (fields - rest))[k := fields[k]] == record + (fields - (rest - {k}))
  {}

  /** The filter loop of ListByOwner. */
  method RowsOwnedBy(records: Table, owner: string) returns (rows: seq<Record>, ghost ids: seq<string>)
    ensures Enumerates(ids, IdsWith(records, "created_by", owner))
    ensures forall id :: id in ids ==> id in records
    ensures rows == Fetch(records, ids)
  {
    rows, ids := [], [];
    var rest := records.Keys;
    ghost var picked: set<string> := {};
    while rest != {}
      invariant rest <= records.Keys
      invariant Enumerates(ids, picked) && |rows| == |ids|
      invariant forall id :: id in picked <==>
                id in records.Keys - rest && Show(Cell(records[id], "created_by")) == owner
      invariant forall i :: 0 <= i < |ids| ==> ids[i] in records && rows[i] == records[ids[i]]
    {
      var id :| id in rest;
      if Show(Cell(records[id], "created_by")) == owner {
        EnumeratesOneMore(ids, picked, id);
        rows, ids, picked := rows + [records[id]], ids + [id], picked + {id};
      }
      rest := rest - {id};
    }
    assert picked == IdsWith(records, "created_by", owner);
  }
}
