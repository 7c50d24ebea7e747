/** Moving a guest user's rows to an account over the in-memory store. */
module GuestMerge {
  import opened Collections
  import opened Options
  import opened MemoryStores
  import opened MemoryQueries

  const MERGE_LIST_CAP := 50000

  datatype ResourceDecl = ResourceDecl(name: string, decodes: bool, telemetry: bool, fields: seq<string>)

  /** The resources the merge goes through. */
  predicate Merged(d: ResourceDecl) {
    d.name != "User" && d.decodes && !d.telemetry
  }

  // ---------------------------------------------------------------------------
  // One field of one resource
  // ---------------------------------------------------------------------------

  function Owner(field: string, account: string): Record {
    map[field := Str(account)]
  }

  function Reassigned(t: Table, ids: set<string>, field: string, account: string, now: string): Table {
    map id | id in t :: if id in ids then Patched(t[id], Owner(field, account), now) else t[id]
  }

  function RowsGiven(st: Store, resource: string, ids: set<string>, field: string, account: string,
                     now: string): Store {
    if resource !in st.data then st
    else st.(data := st.data[resource := Reassigned(st.data[resource], ids, field, account, now)])
  }

  /** Every row of the resource whose field prints as the guest id goes to the account. */
  function FieldMerged(st: Store, resource: string, field: string, guest: string, account: string, now: string): Store {
    RowsGiven(st, resource, IdsWith(TableOf(st, resource), field, guest), field, account, now)
  }

  function DeclMerged(st: Store, d: ResourceDecl, guest: string, account: string, now: string): Store {
    if !Merged(d) then st else
    var st' := FieldMerged(st, d.name, "created_by", guest, account, now);
    if "user_id" in d.fields then FieldMerged(st', d.name, "user_id", guest, account, now) else st'
  }

  function DeclsMerged(st: Store, decls: seq<ResourceDecl>, guest: string, account: string, now: string): Store
    decreases |decls|
  {
    if decls == [] then st
    else DeclMerged(DeclsMerged(st, decls[..|decls| - 1], guest, account, now), decls[|decls| - 1], guest, account, now)
  }

  // ---------------------------------------------------------------------------
  // What the merge means
  // ---------------------------------------------------------------------------

  predicate Covers(decls: seq<ResourceDecl>, resource: string, field: string) {
    exists d <- decls :: Merged(d) && d.name == resource
                         && (field == "created_by" || (field == "user_id" && "user_id" in d.fields))
  }

  /** The value a field ends with: the account where the field is covered and named the guest. */
  function FinalValue(decls: seq<ResourceDecl>, resource: string, field: string, v: Val, guest: string,
                      account: string): Val {
    if Covers(decls, resource, field) && Show(v) == guest then Str(account) else v
  }

  /** `after` has the rows of `before`, with the covered owner fields replaced and, apart from
      the time stamp, nothing else changed. */
  ghost predicate RowsMoved(decls: seq<ResourceDecl>, resource: string, before: Table, after: Table, guest: string,
                            account: string) {
    && after.Keys == before.Keys
    && forall id, field :: id in before && field != "updated_at" ==>
         Cell(after[id], field) == FinalValue(decls, resource, field, Cell(before[id], field), guest, account)
  }

  lemma FieldMovesRows(t: Table, field: string, guest: string, account: string, now: string)
    requires field != "updated_at" && field != "id" && field != "created_at"
    ensures var t' := Reassigned(t, IdsWith(t, field, guest), field, account, now);
            && t'.Keys == t.Keys
            && forall id, f :: id in t && f != "updated_at" ==>
                 Cell(t'[id], f) == if f == field && Show(Cell(t[id], f)) == guest then Str(account) else Cell(t[id], f)
  {}

  lemma CoversOne(d: ResourceDecl, resource: string, field: string)
    ensures Covers([d], resource, field) <==>
            Merged(d) && d.name == resource && (field == "created_by" || (field == "user_id" && "user_id" in d.fields))
  {
    assert d in [d];
  }

  lemma DeclMovesRows(st: Store, d: ResourceDecl, guest: string, account: string, now: string, resource: string)
    requires guest != account
    ensures RowsMoved([d], resource, TableOf(st, resource), TableOf(DeclMerged(st, d, guest, account, now), resource),
            guest, account)
  {
    hide Covers, Reassigned, IdsWith, Cell;
    forall field
      ensures Covers([d], resource, field) <==>
              Merged(d) && d.name == resource &&
                (field == "created_by" || (field == "user_id" && "user_id" in d.fields))
    {
      CoversOne(d, resource, field);
    }
    if Merged(d) && resource == d.name && resource in st.data {
      var t := st.data[resource];
      FieldMovesRows(t, "created_by", guest, account, now);
      var t' := Reassigned(t, IdsWith(t, "created_by", guest), "created_by", account, now);
      FieldMovesRows(t', "user_id", guest, account, now);
    }
  }

  lemma CoversOneMore(decls: seq<ResourceDecl>, d: ResourceDecl, resource: string, field: string)
    ensures Covers(decls + [d], resource, field) <==> Covers(decls, resource, field) || Covers([d], resource, field)
  {}

  /** Each non-User resource keeps its row ids; in each covered resource the guest's `created_by`
      (and declared `user_id`) becomes the account's; no other field and no other resource changes. */
  lemma {:induction false} MergeMovesRows(st: Store, decls: seq<ResourceDecl>, guest: string, account: string,
                                          now: string, resource: string)
    requires guest != account
    ensures RowsMoved(decls, resource, TableOf(st, resource),
                      TableOf(DeclsMerged(st, decls, guest, account, now), resource), guest, account)
    decreases |decls|
  {
    if decls != [] {
      var most, d := decls[..|decls| - 1], decls[|decls| - 1];
      MergeMovesRows(st, most, guest, account, now, resource);
      DeclMovesRows(DeclsMerged(st, most, guest, account, now), d, guest, account, now, resource);
      assert decls == most + [d];
      forall field ensures Covers(decls, resource, field) <==>
        Covers(most, resource, field) || Covers([d], resource, field) {
        CoversOneMore(most, d, resource, field);
      }
    }
  }

  // ---------------------------------------------------------------------------
  // How many replacements
  // ---------------------------------------------------------------------------

  /** The owner fields the merge has to replace. */
  function GuestCells(st: Store, decls: seq<ResourceDecl>, guest: string): set<(string, string, string)> {
    set resource, id, field | resource in st.data && id in st.data[resource] && field in {"created_by", "user_id"}
      && NamesGuest(st, decls, guest, resource, id, field) :: (resource, id, field)
  }

  predicate NamesGuest(st: Store, decls: seq<ResourceDecl>, guest: string, resource: string, id: string,
                       field: string) {
    id in TableOf(st, resource) && Covers(decls, resource, field) &&
      Show(Cell(TableOf(st, resource)[id], field)) == guest
  }

  lemma GuestCell(st: Store, decls: seq<ResourceDecl>, guest: string, c: (string, string, string))
    ensures c in GuestCells(st, decls, guest) <==> NamesGuest(st, decls, guest, c.0, c.1, c.2)
  {
    assert c == (c.0, c.1, c.2);
  }

  function CellsOf(resource: string, ids: set<string>, field: string): set<(string, string, string)> {
    set id | id in ids :: (resource, id, field)
  }

  lemma {:induction false} CellsOfSize(resource: string, ids: set<string>, field: string)
    ensures |CellsOf(resource, ids, field)| == |ids|
    decreases ids
  {
    if ids != {} {
      var id :| id in ids;
      CellsOfSize(resource, ids - {id}, field);
      assert CellsOf(resource, ids, field) == CellsOf(resource, ids - {id}, field) + {(resource, id, field)};
    }
  }

  lemma GivenCell(st: Store, resource: string, ids: set<string>, field: string, account: string, now: string,
                  r: string, id: string, f: string)
    requires field in {"created_by", "user_id"} && f != "updated_at"
    ensures var st' := RowsGiven(st, resource, ids, field, account, now);
            && (id in TableOf(st', r) <==> id in TableOf(st, r))
            && (id in TableOf(st, r) ==>
                  Cell(TableOf(st', r)[id], f) ==
                  if r == resource && f == field && id in ids then Str(account) else Cell(TableOf(st, r)[id], f))
  {}

  /** Giving some of the matching rows away takes exactly their cells off the list. */
  lemma GivingTakesCells(st: Store, decls: seq<ResourceDecl>, resource: string, ids: set<string>, field: string,
                         guest: string, account: string, now: string)
    requires guest != account && field in {"created_by", "user_id"} && Covers(decls, resource, field)
    requires ids <= IdsWith(TableOf(st, resource), field, guest)
    ensures |GuestCells(st, decls, guest)| ==
            |GuestCells(RowsGiven(st, resource, ids, field, account, now), decls, guest)| + |ids|
  {
    var st' := RowsGiven(st, resource, ids, field, account, now);
    var mine := CellsOf(resource, ids, field);
    CellsOfSize(resource, ids, field);
    var before, after := GuestCells(st, decls, guest), GuestCells(st', decls, guest);
    forall c
      ensures c in before <==> c in after || c in mine
      ensures !(c in after && c in mine)
    {
      GuestCell(st, decls, guest, c);
      GuestCell(st', decls, guest, c);
      if Covers(decls, c.0, c.2) {
        GivenCell(st, resource, ids, field, account, now, c.0, c.1, c.2);
      }
      assert c in mine <==> c.0 == resource && c.1 in ids && c.2 == field by { assert c == (c.0, c.1, c.2); }
    }
    SplitSize(before, after, mine);
  }

  /** After the merge no covered field names the guest. */
  lemma NoCellsLeft(st: Store, decls: seq<ResourceDecl>, guest: string, account: string, now: string)
    requires guest != account
    ensures GuestCells(DeclsMerged(st, decls, guest, account, now), decls, guest) == {}
  {
    var after := DeclsMerged(st, decls, guest, account, now);
    forall c ensures c !in GuestCells(after, decls, guest) {
      GuestCell(after, decls, guest, c);
      MergeMovesRows(st, decls, guest, account, now, c.0);
      assert RowsMoved(decls, c.0, TableOf(st, c.0), TableOf(after, c.0), guest, account);
    }
  }

  // ---------------------------------------------------------------------------
  // Merges of any size
  // ---------------------------------------------------------------------------

  /** The cell is as it was, or a covered one that named the guest and names the account. */
  predicate CellKept(covered: bool, v: Val, v': Val, guest: string, account: string) {
    v' == v || (covered && Show(v) == guest && v' == Str(account))
  }

  ghost predicate RowsKept(decls: seq<ResourceDecl>, resource: string, before: Table, after: Table, guest: string,
                           account: string) {
    && after.Keys == before.Keys
    && forall id, field :: id in before && field != "updated_at" ==>
         CellKept(Covers(decls, resource, field), Cell(before[id], field), Cell(after[id], field), guest, account)
  }

  /** Whatever was moved, no row is lost or made and no owner changes but from guest to account;
      `n` is exactly the number of owner fields that no longer name the guest. */
  ghost predicate Conserved(decls: seq<ResourceDecl>, st: Store, st': Store, guest: string, account: string, n: int) {
    && (forall r :: RowsKept(decls, r, TableOf(st, r), TableOf(st', r), guest, account))
    && n == |GuestCells(st, decls, guest)| - |GuestCells(st', decls, guest)|
  }

  lemma GivingConserves(st: Store, decls: seq<ResourceDecl>, resource: string, ids: set<string>, field: string,
                        guest: string, account: string, now: string)
    requires guest != account && field in {"created_by", "user_id"} && Covers(decls, resource, field)
    requires ids <= IdsWith(TableOf(st, resource), field, guest)
    ensures Conserved(decls, st, RowsGiven(st, resource, ids, field, account, now), guest, account, |ids|)
  {
    GivingTakesCells(st, decls, resource, ids, field, guest, account, now);
    var st' := RowsGiven(st, resource, ids, field, account, now);
    forall r ensures RowsKept(decls, r, TableOf(st, r), TableOf(st', r), guest, account) {
      forall id ensures id in TableOf(st', r) <==> id in TableOf(st, r) {
        GivenCell(st, resource, ids, field, account, now, r, id, field);
      }
      forall id, f | id in TableOf(st, r) && f != "updated_at"
        ensures CellKept(Covers(decls, r, f), Cell(TableOf(st, r)[id], f), Cell(TableOf(st', r)[id], f), guest, account)
      {
        GivenCell(st, resource, ids, field, account, now, r, id, f);
      }
    }
  }

  lemma ConservedThrough(decls: seq<ResourceDecl>, a: Store, b: Store, c: Store, guest: string, account: string,
                         m: int, n: int)
    requires guest != account
    requires Conserved(decls, a, b, guest, account, m) && Conserved(decls, b, c, guest, account, n)
    ensures Conserved(decls, a, c, guest, account, m + n)
  {
    hide GuestCells, Covers, Cell, TableOf;
    forall r ensures RowsKept(decls, r, TableOf(a, r), TableOf(c, r), guest, account) {
      assert RowsKept(decls, r, TableOf(a, r), TableOf(b, r), guest, account);
      assert RowsKept(decls, r, TableOf(b, r), TableOf(c, r), guest, account);
    }
  }

  function Surplus(n: nat): nat {
    if n <= MERGE_LIST_CAP then 0 else n - MERGE_LIST_CAP
  }

  function MatchCount(st: Store, resource: string, field: string, guest: string): nat {
    |IdsWith(TableOf(st, resource), field, guest)|
  }

  /** What still names the guest in the resource is the surplus over the cap. */
  predicate SurplusLeft(d: ResourceDecl, st: Store, st': Store, guest: string) {
    && MatchCount(st', d.name, "created_by", guest) == Surplus(MatchCount(st, d.name, "created_by", guest))
    && ("user_id" in d.fields ==>
          MatchCount(st', d.name, "user_id", guest) == Surplus(MatchCount(st, d.name, "user_id", guest)))
  }

  ghost predicate DistinctNames(decls: seq<ResourceDecl>) {
    forall i, j :: 0 <= i < j < |decls| ==> decls[i].name != decls[j].name
  }

  // ---------------------------------------------------------------------------
  // The merge itself
  // ---------------------------------------------------------------------------

  /** At most the list cap of matching rows in every merged resource. */
  ghost predicate UnderCap(st: Store, decls: seq<ResourceDecl>, guest: string) {
    forall d :: d in decls && Merged(d) ==>
      && MatchCount(st, d.name, "created_by", guest) <= MERGE_LIST_CAP
      && ("user_id" in d.fields ==> MatchCount(st, d.name, "user_id", guest) <= MERGE_LIST_CAP)
  }

  /** Merging never makes more rows match. */
  lemma FewerMatches(st: Store, decls: seq<ResourceDecl>, guest: string, account: string, now: string,
                     resource: string, field: string)
    requires guest != account && field in {"created_by", "user_id"}
    ensures MatchCount(DeclsMerged(st, decls, guest, account, now), resource, field, guest) <=
            MatchCount(st, resource, field, guest)
  {
    MergeMovesRows(st, decls, guest, account, now, resource);
    var before, after := TableOf(st, resource), TableOf(DeclsMerged(st, decls, guest, account, now), resource);
    forall id | id in IdsWith(after, field, guest) ensures id in IdsWith(before, field, guest) {
      assert Cell(after[id], field) == FinalValue(decls, resource, field, Cell(before[id], field), guest, account);
    }
    SubsetSize(IdsWith(after, field, guest), IdsWith(before, field, guest));
  }

  lemma OtherFieldStays(st: Store, resource: string, ids: set<string>, field: string, other: string,
                        guest: string, account: string, now: string)
    requires field in {"created_by", "user_id"} && other in {"created_by", "user_id"} && other != field
    ensures IdsWith(TableOf(RowsGiven(st, resource, ids, field, account, now), resource), other, guest) ==
            IdsWith(TableOf(st, resource), other, guest)
  {
    var after := TableOf(RowsGiven(st, resource, ids, field, account, now), resource);
    forall id ensures id in IdsWith(after, other, guest) <==> id in IdsWith(TableOf(st, resource), other, guest) {
      GivenCell(st, resource, ids, field, account, now, resource, id, other);
    }
  }

  /** What is listed, and how much of it stays behind when the list is cut at the cap. */
  lemma ListedRows(t: Table, ids: seq<string>, field: string, guest: string, account: string, now: string)
    returns (taken: seq<string>)
    requires guest != account && field in {"created_by", "user_id"}
    requires Enumerates(ids, IdsWith(t, field, guest)) && forall id :: id in ids ==> id in t
    ensures var matching := IdsWith(t, field, guest);
            && |taken| == (if |matching| <= MERGE_LIST_CAP then |matching| else MERGE_LIST_CAP)
            && (forall id :: id in taken ==> id in matching) && NoRepeat(taken)
            && Page(Fetch(t, ids), 0, MERGE_LIST_CAP) == Fetch(t, taken)
            && (|matching| <= MERGE_LIST_CAP ==> Members(taken) == matching)
  {
    var matching := IdsWith(t, field, guest);
    EnumeratesMembers(ids, matching);
    EnumeratesOnce(ids, matching);
    taken := if |ids| <= MERGE_LIST_CAP then ids else ids[..MERGE_LIST_CAP];
    assert Members(ids) == matching;
  }

  ghost predicate NoRepeat(ids: seq<string>) {
    forall i, j :: 0 <= i < j < |ids| ==> ids[i] != ids[j]
  }

  function Members(ids: seq<string>): set<string> {
    set id | id in ids
  }

  lemma EnumeratesOnce(ids: seq<string>, all: set<string>)
    requires Enumerates(ids, all)
    ensures NoRepeat(ids)
  {
    forall i, j | 0 <= i < j < |ids| ensures ids[i] != ids[j] {
      if ids[i] == ids[j] { AppearsTwice(ids, i, j); }
    }
  }

  /** One of the two update loops: every listed row goes to the account. */
  method ReassignRows(store: MemoryStore, resource: string, field: string, account: string, rows: seq<Record>,
                      ghost ids: seq<string>, now: string) returns (n: nat)
    requires store.Valid() && field in {"created_by", "user_id"}
    requires forall id :: id in ids ==> id in TableOf(store.Contents(), resource)
    requires NoRepeat(ids) && rows == Fetch(TableOf(store.Contents(), resource), ids)
    modifies store`data
    ensures store.Valid()
    ensures store.Contents() == RowsGiven(old(store.Contents()), resource, Members(ids), field, account, now)
    ensures n == |rows|
  {
    hide RowsGiven, Updated;
    n := 0;
    ghost var start := store.Contents();
    GiveNothing(start, resource, field, account, now);
    for i := 0 to |rows|
      invariant store.Valid() && n == i
      invariant store.Contents() == RowsGiven(start, resource, Members(ids[..i]), field, account, now)
    {
      var id := Show(Cell(rows[i], "id"));
      assert rows[i] == TableOf(start, resource)[ids[i]];
      assert id == ids[i];
      GiveOneMore(start, resource, ids[..i], ids[i], field, account, now);
      assert ids[..i + 1] == ids[..i] + [ids[i]];
      var updated := store.Update(resource, id, map[field := Str(account)], now);
      if updated.Some? {
        n := n + 1;
      }
    }
    assert ids[..|rows|] == ids;
  }

  lemma GiveNothing(st: Store, resource: string, field: string, account: string, now: string)
    ensures RowsGiven(st, resource, Members([]), field, account, now) == st
  {
    if resource in st.data {
      assert Reassigned(st.data[resource], Members([]), field, account, now) == st.data[resource];
    }
  }

  lemma GiveOneMore(st: Store, resource: string, ids: seq<string>, id: string, field: string, account: string,
                    now: string)
    requires id in TableOf(st, resource) && id !in ids
    ensures var before := RowsGiven(st, resource, Members(ids), field, account, now);
            && id in TableOf(before, resource)
            && RowsGiven(st, resource, Members(ids + [id]), field, account, now) ==
               Updated(before, resource, id, Owner(field, account), now)
  {
    var t := st.data[resource];
    assert Members(ids + [id]) == Members(ids) + {id};
    assert Reassigned(t, Members(ids + [id]), field, account, now) ==
           Reassigned(t, Members(ids), field, account, now)[id := Patched(t[id], Owner(field, account), now)];
  }

  lemma LeftBehind(st: Store, resource: string, field: string, guest: string, account: string, now: string,
                   taken: set<string>)
    requires guest != account && field in {"created_by", "user_id"}
    requires taken <= IdsWith(TableOf(st, resource), field, guest)
    ensures var after := TableOf(RowsGiven(st, resource, taken, field, account, now), resource);
            |IdsWith(after, field, guest)| == |IdsWith(TableOf(st, resource), field, guest)| - |taken|
  {
    var t := TableOf(st, resource);
    var after := TableOf(RowsGiven(st, resource, taken, field, account, now), resource);
    forall id | id in t
      ensures Cell(after[id], field) == if id in taken then Str(account) else Cell(t[id], field)
    {
    }
    assert IdsWith(after, field, guest) == IdsWith(t, field, guest) - taken;
    SplitSize(IdsWith(t, field, guest), IdsWith(after, field, guest), taken);
  }

  /** An update loop over a listing cut at the cap: with at most that many matching rows it moves
      them all, with more exactly the surplus stays behind. */
  method MoveListed(store: MemoryStore, resource: string, field: string, guest: string, account: string,
                    rows: seq<Record>, ghost ids: seq<string>, now: string) returns (n: nat, ghost taken: set<string>)
    requires store.Valid() && guest != account && field in {"created_by", "user_id"}
    requires Enumerates(ids, IdsWith(TableOf(store.Contents(), resource), field, guest))
    requires forall id :: id in ids ==> id in TableOf(store.Contents(), resource)
    requires rows == Page(Fetch(TableOf(store.Contents(), resource), ids), 0, MERGE_LIST_CAP)
    modifies store`data
    ensures store.Valid()
    ensures taken <= IdsWith(TableOf(old(store.Contents()), resource), field, guest)
    ensures store.Contents() == RowsGiven(old(store.Contents()), resource, taken, field, account, now)
    ensures n == |taken| == MatchCount(old(store.Contents()), resource, field, guest)
                            - Surplus(MatchCount(old(store.Contents()), resource, field, guest))
    ensures MatchCount(store.Contents(), resource, field, guest) ==
            Surplus(MatchCount(old(store.Contents()), resource, field, guest))
  {
    ghost var start := store.Contents();
    ghost var list := ListedRows(TableOf(start, resource), ids, field, guest, account, now);
    taken := Members(list);
    n := ReassignRows(store, resource, field, account, rows, list, now);
    MembersSize(list);
    LeftBehind(start, resource, field, guest, account, now, taken);
  }

  lemma TakenIsAll(st: Store, resource: string, taken: set<string>, field: string, guest: string)
    requires taken <= IdsWith(TableOf(st, resource), field, guest)
    requires |taken| == MatchCount(st, resource, field, guest)
    ensures taken == IdsWith(TableOf(st, resource), field, guest)
  {
    SubsetSize(taken, IdsWith(TableOf(st, resource), field, guest));
  }

  lemma {:induction false} MembersSize(ids: seq<string>)
    requires NoRepeat(ids)
    ensures |Members(ids)| == |ids|
    decreases |ids|
  {
    if ids != [] {
      var most, last := ids[..|ids| - 1], ids[|ids| - 1];
      MembersSize(most);
      assert Members(ids) == Members(most) + {last};
    }
  }

  /** Both loops of one resource. */
  method MergeResource(store: MemoryStore, d: ResourceDecl, ghost decls: seq<ResourceDecl>, guest: string,
                       account: string, like: Like, now: string) returns (n: nat)
    requires store.Valid() && guest != account && Merged(d) && d in decls
    modifies store`data
    ensures store.Valid()
    ensures Conserved(decls, old(store.Contents()), store.Contents(), guest, account, n)
    ensures SurplusLeft(d, old(store.Contents()), store.Contents(), guest)
    ensures forall r :: r != d.name ==> TableOf(store.Contents(), r) == TableOf(old(store.Contents()), r)
    ensures UnderCap(old(store.Contents()), [d], guest) ==>
              store.Contents() == DeclMerged(old(store.Contents()), d, guest, account, now)
  {
    hide FieldMoved, IdsWith, Fetch, Covers, Conserved, UnderCap, SurplusLeft, DeclMerged;
    ghost var start := store.Contents();
    CoversDeclared(decls, d);
    var rowsByOwner, ids := store.ListByOwner(d.name, guest, MERGE_LIST_CAP, 0);
    ghost var taken;
    n, taken := MoveListed(store, d.name, "created_by", guest, account, rowsByOwner, ids, now);
    ghost var middle := store.Contents();
    MovedField(start, middle, decls, d.name, "created_by", "user_id", guest, account, now, taken);
    var hasUserID := DeclaresUserID(d);
    if hasUserID {
      var rowsByQuery, found := QueryByUser(store, d.name, guest, like);
      var m, more := MoveListed(store, d.name, "user_id", guest, account, rowsByQuery, found, now);
      MovedField(middle, store.Contents(), decls, d.name, "user_id", "created_by", guest, account, now, more);
      BothMoved(start, middle, store.Contents(), decls, d, guest, account, now, n, m);
      n := n + m;
    } else {
      OneMoved(start, middle, decls, d, guest, account, now, n);
    }
  }

  /** What moving the rows listed by one field comes to. */
  ghost predicate FieldMoved(st: Store, st': Store, decls: seq<ResourceDecl>, resource: string, field: string,
                             other: string,
                             guest: string, account: string, now: string, n: nat) {
    && Conserved(decls, st, st', guest, account, n)
    && MatchCount(st', resource, field, guest) == Surplus(MatchCount(st, resource, field, guest))
    && MatchCount(st', resource, other, guest) == MatchCount(st, resource, other, guest)
    && (forall r :: r != resource ==> TableOf(st', r) == TableOf(st, r))
    && (MatchCount(st, resource, field, guest) <= MERGE_LIST_CAP ==>
          st' == FieldMerged(st, resource, field, guest, account, now))
  }

  lemma MovedField(st: Store, st': Store, decls: seq<ResourceDecl>, resource: string, field: string, other: string,
                   guest: string, account: string, now: string, taken: set<string>)
    requires guest != account && Covers(decls, resource, field)
    requires field in {"created_by", "user_id"} && other in {"created_by", "user_id"} && other != field
    requires taken <= IdsWith(TableOf(st, resource), field, guest)
    requires st' == RowsGiven(st, resource, taken, field, account, now)
    requires |taken| == MatchCount(st, resource, field, guest) - Surplus(MatchCount(st, resource, field, guest))
    requires MatchCount(st', resource, field, guest) == Surplus(MatchCount(st, resource, field, guest))
    ensures FieldMoved(st, st', decls, resource, field, other, guest, account, now, |taken|)
  {
    hide IdsWith, Covers, Conserved;
    GivingConserves(st, decls, resource, taken, field, guest, account, now);
    OtherFieldStays(st, resource, taken, field, other, guest, account, now);
    if MatchCount(st, resource, field, guest) <= MERGE_LIST_CAP { TakenIsAll(st, resource, taken, field, guest); }
  }

  lemma OneMoved(st: Store, st': Store, decls: seq<ResourceDecl>, d: ResourceDecl, guest: string, account: string,
                 now: string, n: nat)
    requires Merged(d) && "user_id" !in d.fields
    requires FieldMoved(st, st', decls, d.name, "created_by", "user_id", guest, account, now, n)
    ensures Conserved(decls, st, st', guest, account, n) && SurplusLeft(d, st, st', guest)
    ensures forall r :: r != d.name ==> TableOf(st', r) == TableOf(st, r)
    ensures UnderCap(st, [d], guest) ==> st' == DeclMerged(st, d, guest, account, now)
  {
    hide Conserved, MatchCount, FieldMerged, TableOf;
    CapOfOne(st, d, guest);
  }

  lemma BothMoved(st: Store, mid: Store, st': Store, decls: seq<ResourceDecl>, d: ResourceDecl, guest: string,
                  account: string, now: string, m: nat, n: nat)
    requires guest != account && Merged(d) && "user_id" in d.fields
    requires FieldMoved(st, mid, decls, d.name, "created_by", "user_id", guest, account, now, m)
    requires FieldMoved(mid, st', decls, d.name, "user_id", "created_by", guest, account, now, n)
    ensures Conserved(decls, st, st', guest, account, m + n) && SurplusLeft(d, st, st', guest)
    ensures forall r :: r != d.name ==> TableOf(st', r) == TableOf(st, r)
    ensures UnderCap(st, [d], guest) ==> st' == DeclMerged(st, d, guest, account, now)
  {
    hide Conserved, MatchCount, FieldMerged, TableOf;
    CapOfOne(st, d, guest);
    ConservedThrough(decls, st, mid, st', guest, account, m, n);
  }

  lemma CoversDeclared(decls: seq<ResourceDecl>, d: ResourceDecl)
    requires d in decls && Merged(d)
    ensures Covers(decls, d.name, "created_by") && ("user_id" in d.fields ==> Covers(decls, d.name, "user_id"))
  {}

  lemma CapOfOne(st: Store, d: ResourceDecl, guest: string)
    requires Merged(d)
    ensures UnderCap(st, [d], guest) ==>
              && Surplus(MatchCount(st, d.name, "created_by", guest)) == 0
              && ("user_id" in d.fields ==> Surplus(MatchCount(st, d.name, "user_id", guest)) == 0)
  {
    assert d in [d];
  }

  /** The loop over the declared fields. */
  method DeclaresUserID(d: ResourceDecl) returns (hasUserID: bool)
    ensures hasUserID <==> "user_id" in d.fields
  {
    for i := 0 to |d.fields|
      invariant "user_id" !in d.fields[..i]
    {
      if d.fields[i] == "user_id" {
        return true;
      }
    }
    return false;
  }

  /** Query(name).Where("user_id", "=", guest).Limit(cap).Execute(). */
  method QueryByUser(store: MemoryStore, resource: string, guest: string, like: Like)
    returns (rows: seq<Record>, ghost ids: seq<string>)
    ensures Enumerates(ids, IdsWith(TableOf(store.Contents(), resource), "user_id", guest))
    ensures forall id :: id in ids ==> id in TableOf(store.Contents(), resource)
    ensures rows == Page(Fetch(TableOf(store.Contents(), resource), ids), 0, MERGE_LIST_CAP)
  {
    var query := new MemoryQueryBuilder(store, resource);
    query.Where("user_id", "=", Scalar(Str(guest)));
    query.Limit(MERGE_LIST_CAP);
    rows, ids := query.Execute(like);
    assert query.filters == [Filter("user_id", "=", Scalar(Str(guest)))];
    OneFilter(TableOf(store.Contents(), resource), "user_id", guest, like);
  }

  lemma OneFilter(t: Table, field: string, value: string, like: Like)
    ensures Matching(t, [Filter(field, "=", Scalar(Str(value)))], like) == IdsWith(t, field, value)
  {
    var f := Filter(field, "=", Scalar(Str(value)));
    forall id | id in t ensures PassesAll([f], t[id], like) <==> Show(Cell(t[id], field)) == value {
      assert [f][0] == f;
      assert Passes(f.op, f, t[id], like) <==> Show(Cell(t[id], field)) == value;
    }
  }

  /** The device id goes along when the account has none. */
  function DeviceCopied(st: Store, guest: string, account: string, now: string): Store {
    var users := TableOf(st, "User");
    if guest in users && account in users && HasText(users[guest], "device_id") &&
      !HasText(users[account], "device_id") then
      Updated(st, "User", account, map["device_id" := users[guest]["device_id"]], now)
    else st
  }

  /** After the first `i` resources: theirs are down to the surplus, the others untouched. */
  ghost predicate Progress(decls: seq<ResourceDecl>, i: nat, st: Store, st': Store, guest: string) {
    forall j :: 0 <= j < |decls| ==>
      if j < i then Merged(decls[j]) ==> SurplusLeft(decls[j], st, st', guest)
      else TableOf(st', decls[j].name) == TableOf(st, decls[j].name)
  }

  lemma ProgressOneMore(decls: seq<ResourceDecl>, i: nat, st: Store, mid: Store, st': Store, guest: string)
    requires i < |decls| && DistinctNames(decls) && Progress(decls, i, st, mid, guest)
    requires if Merged(decls[i]) then SurplusLeft(decls[i], mid, st', guest) else st' == mid
    requires forall r :: r != decls[i].name ==> TableOf(st', r) == TableOf(mid, r)
    ensures Progress(decls, i + 1, st, st', guest)
  {
    forall j | 0 <= j < |decls|
      ensures if j < i + 1 then Merged(decls[j]) ==> SurplusLeft(decls[j], st, st', guest)
              else TableOf(st', decls[j].name) == TableOf(st, decls[j].name)
    {
      if j != i { assert decls[j].name != decls[i].name; }
    }
  }

  predicate NoneLeft(st: Store, d: ResourceDecl, guest: string) {
    && IdsWith(TableOf(st, d.name), "created_by", guest) == {}
    && ("user_id" in d.fields ==> IdsWith(TableOf(st, d.name), "user_id", guest) == {})
  }

  lemma CapLeavesNone(decls: seq<ResourceDecl>, st: Store, st': Store, d: ResourceDecl, guest: string)
    requires Progress(decls, |decls|, st, st', guest) && UnderCap(st, decls, guest) && d in decls && Merged(d)
    ensures NoneLeft(st', d, guest)
  {
    var j :| 0 <= j < |decls| && decls[j] == d;
    assert SurplusLeft(decls[j], st, st', guest);
  }

  /** When each resource is registered once, nothing names the guest any more if and only if no
      resource had more matching rows than the cap. */
  lemma CompleteIff(decls: seq<ResourceDecl>, st: Store, st': Store, guest: string)
    requires Progress(decls, |decls|, st, st', guest)
    ensures GuestCells(st', decls, guest) == {} <==> UnderCap(st, decls, guest)
  {
    if UnderCap(st, decls, guest) {
      forall d | d in decls && Merged(d) ensures NoneLeft(st', d, guest) { CapLeavesNone(decls, st, st', d, guest); }
      forall c ensures c !in GuestCells(st', decls, guest) {
        GuestCell(st', decls, guest, c);
        assert NamesGuest(st', decls, guest, c.0, c.1, c.2) ==> c.1 in IdsWith(TableOf(st', c.0), c.2, guest);
      }
    } else {
      var d :| d in decls && Merged(d)
               && (MatchCount(st, d.name, "created_by", guest) > MERGE_LIST_CAP
                   || ("user_id" in d.fields && MatchCount(st, d.name, "user_id", guest) > MERGE_LIST_CAP));
      var j :| 0 <= j < |decls| && decls[j] == d;
      assert SurplusLeft(decls[j], st, st', guest);
      CoversDeclared(decls, d);
      var field := if MatchCount(st, d.name, "created_by", guest) > MERGE_LIST_CAP then "created_by" else "user_id";
      assert IdsWith(TableOf(st', d.name), field, guest) != {};
      var id :| id in IdsWith(TableOf(st', d.name), field, guest);
      GuestCell(st', decls, guest, (d.name, id, field));
    }
  }

  /** The loop over the registered resources. */
  method MergeResources(store: MemoryStore, decls: seq<ResourceDecl>, guest: string, account: string,
                        like: Like, now: string) returns (n: nat)
    requires store.Valid() && guest != account
    modifies store`data
    ensures store.Valid()
    ensures Conserved(decls, old(store.Contents()), store.Contents(), guest, account, n)
    ensures DistinctNames(decls) ==> Progress(decls, |decls|, old(store.Contents()), store.Contents(), guest)
    ensures TableOf(store.Contents(), "User") == TableOf(old(store.Contents()), "User")
    ensures UnderCap(old(store.Contents()), decls, guest) ==>
              store.Contents() == DeclsMerged(old(store.Contents()), decls, guest, account, now)
  {
    hide FieldMerged, GuestCells, RowsKept, SurplusLeft, MatchCount, TableOf, UnderCap;
    n := 0;
    ghost var start := store.Contents();
    NothingConserved(decls, start, guest, account);
    for i := 0 to |decls|
      invariant store.Valid()
      invariant Conserved(decls, start, store.Contents(), guest, account, n)
      invariant DistinctNames(decls) ==> Progress(decls, i, start, store.Contents(), guest)
      invariant TableOf(store.Contents(), "User") == TableOf(start, "User")
      invariant UnderCap(start, decls, guest) ==>
                store.Contents() == DeclsMerged(start, decls[..i], guest, account, now)
    {
      assert decls[..i + 1][..i] == decls[..i];
      var d := decls[i];
      ghost var before := store.Contents();
      if d.name == "User" || !d.decodes || d.telemetry {
        if DistinctNames(decls) { ProgressOneMore(decls, i, start, before, before, guest); }
        continue;
      }
      if UnderCap(start, decls, guest) { StillUnderCap(start, decls, i, guest, account, now); }
      var m := MergeResource(store, d, decls, guest, account, like, now);
      ConservedThrough(decls, start, before, store.Contents(), guest, account, n, m);
      if DistinctNames(decls) { ProgressOneMore(decls, i, start, before, store.Contents(), guest); }
      n := n + m;
    }
    assert decls[..|decls|] == decls;
  }

  lemma NothingConserved(decls: seq<ResourceDecl>, st: Store, guest: string, account: string)
    ensures Conserved(decls, st, st, guest, account, 0)
  {}

  lemma StillUnderCap(st: Store, decls: seq<ResourceDecl>, i: nat, guest: string, account: string, now: string)
    requires UnderCap(st, decls, guest) && guest != account && i < |decls|
    ensures UnderCap(DeclsMerged(st, decls[..i], guest, account, now), [decls[i]], guest)
  {
    var d := decls[i];
    FewerMatches(st, decls[..i], guest, account, now, d.name, "created_by");
    FewerMatches(st, decls[..i], guest, account, now, d.name, "user_id");
  }

  method CopyDevice(store: MemoryStore, guest: string, account: string, now: string)
    requires store.Valid()
    modifies store`data
    ensures store.Valid() && store.Contents() == DeviceCopied(old(store.Contents()), guest, account, now)
  {
    var guestRow := store.Get("User", guest);
    var accountRow := store.Get("User", account);
    if guestRow.Some? && accountRow.Some? && HasText(guestRow.value, "device_id") &&
       !HasText(accountRow.value, "device_id") {
      var _ := store.Update("User", account, map["device_id" := guestRow.value["device_id"]], now);
    }
  }

  /** Of any size: rows and owners are conserved, of the users exactly the guest goes, and the count is
      exact.  Everything is moved if and only if no resource has more matching rows than the cap; then
      the guest's rows of the moved resources, and no others, have become the account's. */
  method MergeGuestIntoAccount(store: MemoryStore, reg: Option<seq<ResourceDecl>>, guest: string, account: string,
                               like: Like, now: string) returns (n: nat)
    requires store.Valid()
    modifies store`data
    ensures store.Valid()
    ensures guest == "" || account == "" || guest == account || reg.None? ==>
            n == 0 && store.Contents() == old(store.Contents())
    ensures guest != "" && account != "" && guest != account && reg.Some? ==>
              && Conserved(reg.value, old(WithoutUser(store.Contents())), WithoutUser(store.Contents()), guest,
                   account, n)
              && TableOf(store.Contents(), "User") ==
                 TableOf(DeviceCopied(old(store.Contents()), guest, account, now), "User") - {guest}
              && UsersMerged(TableOf(old(store.Contents()), "User"), TableOf(store.Contents(), "User"), guest, account)
              && (DistinctNames(reg.value) ==>
                    (OwnerCells(store.Contents(), reg.value, guest) == {} <==>
                      FitsCap(old(store.Contents()), reg.value, guest)))
              && (FitsCap(old(store.Contents()), reg.value, guest) ==>
                    && store.Contents() ==
                       Deleted(DeclsMerged(DeviceCopied(old(store.Contents()), guest, account, now), reg.value, guest,
                         account, now), "User", guest)
                    && n == |OwnerCells(old(store.Contents()), reg.value, guest)|
                    && OwnersMoved(reg.value, old(store.Contents()), store.Contents(), guest, account))
  {
    hide GuestCells, DeclsMerged, RowsKept, Progress, UnderCap, DeviceCopied, Conserved, OwnerCells, FitsCap,
      OwnersMoved,
      UsersMerged;
    n := 0;
    if guest == "" || account == "" || guest == account || reg.None? {
      return;
    }
    ghost var before := store.Contents();
    CopyDevice(store, guest, account, now);
    n := MergeResources(store, reg.value, guest, account, like, now);
    ghost var merged := store.Contents();
    var _ := store.Delete("User", guest);
    MergeIsConserved(before, merged, reg.value, guest, account, now, n);
    UsersAreMerged(before, merged, guest, account, now);
    FlagsMean(before, reg.value, guest);
    FlagsMean(store.Contents(), reg.value, guest);
    if FitsCap(before, reg.value, guest) { AllAreMoved(before, reg.value, guest, account, now); }
  }

  // ---------------------------------------------------------------------------
  // The merge read off the flags
  // ---------------------------------------------------------------------------

  /** The owner fields that are moved: of resources that can be decoded, are not telemetry and not User. */
  ghost predicate IsMoved(decls: seq<ResourceDecl>, resource: string, field: string) {
    exists d :: d in decls && d.name == resource && d.name != "User" && d.decodes && !d.telemetry
                && (field == "created_by" || (field == "user_id" && "user_id" in d.fields))
  }

  /** None of them prints the guest in more than 50000 rows. */
  ghost predicate FitsCap(st: Store, decls: seq<ResourceDecl>, guest: string) {
    forall resource, field :: IsMoved(decls, resource, field) ==>
      |set id | id in TableOf(st, resource) && Show(Cell(TableOf(st, resource)[id], field)) == guest| <= 50000
  }

  ghost function OwnerCells(st: Store, decls: seq<ResourceDecl>, guest: string): set<(string, string, string)> {
    set r, id, field | r in st.data && id in st.data[r] && field in {"created_by", "user_id"}
                       && IsMoved(decls, r, field) && Show(Cell(st.data[r][id], field)) == guest :: (r, id, field)
  }

  /** Where they named the guest they name the account; every other owner field of a row that is left is as it was. */
  ghost predicate OwnersMoved(decls: seq<ResourceDecl>, before: Store, after: Store, guest: string, account: string) {
    forall r, id, field :: id in TableOf(after, r) && (field == "created_by" || field == "user_id") ==>
      OwnerMoved(IsMoved(decls, r, field), TableOf(before, r), TableOf(after, r), id, field, guest, account)
  }

  ghost predicate OwnerMoved(moved: bool, before: Table, after: Table, id: string, field: string, guest: string,
                             account: string)
    requires id in after
  {
    && id in before
    && Cell(after[id], field) ==
       if moved && Show(Cell(before[id], field)) == guest then Str(account) else Cell(before[id], field)
  }

  /** The guest is gone, and its device id is with the account if only the guest had one. */
  ghost predicate UsersMerged(before: Table, after: Table, guest: string, account: string) {
    && after.Keys == before.Keys - {guest}
    && forall id, field :: id in after && field != "updated_at" ==>
         Cell(after[id], field) ==
         if id == account && field == "device_id" && guest in before
            && (exists s :: s != "" && Cell(before[guest], "device_id") == Str(s))
            && !(exists s :: s != "" && Cell(before[account], "device_id") == Str(s))
         then Cell(before[guest], "device_id") else Cell(before[id], field)
  }

  lemma FlagsMean(st: Store, decls: seq<ResourceDecl>, guest: string)
    ensures OwnerCells(st, decls, guest) == GuestCells(st, decls, guest)
    ensures FitsCap(st, decls, guest) <==> UnderCap(st, decls, guest)
  {
    forall resource, field ensures IsMoved(decls, resource, field) <==> Covers(decls, resource, field) {
      IsMovedIff(decls, resource, field);
    }
    if FitsCap(st, decls, guest) {
      forall d | d in decls && Merged(d)
        ensures MatchCount(st, d.name, "created_by", guest) <= MERGE_LIST_CAP
        ensures "user_id" in d.fields ==> MatchCount(st, d.name, "user_id", guest) <= MERGE_LIST_CAP
      {
        CoversDeclared(decls, d);
      }
    }
  }

  lemma UsersAreMerged(st: Store, merged: Store, guest: string, account: string, now: string)
    requires guest != account && TableOf(merged, "User") == TableOf(DeviceCopied(st, guest, account, now), "User")
    ensures UsersMerged(TableOf(st, "User"), TableOf(Deleted(merged, "User", guest), "User"), guest, account)
  {}

  lemma DeviceKeepsOwners(st: Store, guest: string, account: string, now: string, r: string, id: string, field: string)
    requires field in {"created_by", "user_id"}
    ensures var start := DeviceCopied(st, guest, account, now);
            && (id in TableOf(start, r) <==> id in TableOf(st, r))
            && (id in TableOf(st, r) ==> Cell(TableOf(start, r)[id], field) == Cell(TableOf(st, r)[id], field))
  {}

  lemma DeletedKeepsRest(st: Store, resource: string, gone: string, r: string, id: string)
    requires id in TableOf(Deleted(st, resource, gone), r)
    ensures id in TableOf(st, r) && TableOf(Deleted(st, resource, gone), r)[id] == TableOf(st, r)[id]
  {}

  lemma IsMovedIff(decls: seq<ResourceDecl>, resource: string, field: string)
    ensures IsMoved(decls, resource, field) <==> Covers(decls, resource, field)
  {}

  lemma AllAreMoved(st: Store, decls: seq<ResourceDecl>, guest: string, account: string, now: string)
    requires guest != account
    ensures OwnersMoved(decls, st,
              Deleted(DeclsMerged(DeviceCopied(st, guest, account, now), decls, guest, account, now), "User", guest),
              guest, account)
  {
    hide DeclsMerged, DeviceCopied, Deleted, Covers, IsMoved, TableOf, Cell;
    var start := DeviceCopied(st, guest, account, now);
    var merged := DeclsMerged(start, decls, guest, account, now);
    var after := Deleted(merged, "User", guest);
    forall r, id, field | id in TableOf(after, r) && (field == "created_by" || field == "user_id")
      ensures OwnerMoved(IsMoved(decls, r, field), TableOf(st, r), TableOf(after, r), id, field, guest, account)
    {
      DeletedKeepsRest(merged, "User", guest, r, id);
      MergeMovesRows(start, decls, guest, account, now, r);
      DeviceKeepsOwners(st, guest, account, now, r, id, field);
      IsMovedIff(decls, r, field);
    }
  }

  /** The store but for its users. */
  function WithoutUser(st: Store): Store {
    st.(data := st.data - {"User"})
  }

  lemma SameElsewhere(st: Store, st': Store, decls: seq<ResourceDecl>, guest: string)
    requires forall r :: r != "User" ==> TableOf(st', r) == TableOf(st, r)
    ensures GuestCells(st', decls, guest) == GuestCells(st, decls, guest)
    ensures UnderCap(st, decls, guest) <==> UnderCap(st', decls, guest)
  {
    forall c ensures c in GuestCells(st', decls, guest) <==> c in GuestCells(st, decls, guest) {
      GuestCell(st, decls, guest, c);
      GuestCell(st', decls, guest, c);
    }
  }

  lemma MergeIsConserved(st: Store, merged: Store, decls: seq<ResourceDecl>, guest: string, account: string,
                         now: string, n: int)
    requires guest != account
    requires var start := DeviceCopied(st, guest, account, now);
             && Conserved(decls, start, merged, guest, account, n)
             && (DistinctNames(decls) ==> Progress(decls, |decls|, start, merged, guest))
             && (UnderCap(start, decls, guest) ==> merged == DeclsMerged(start, decls, guest, account, now))
    ensures var after := Deleted(merged, "User", guest);
            && Conserved(decls, WithoutUser(st), WithoutUser(after), guest, account, n)
            && (DistinctNames(decls) ==> (GuestCells(after, decls, guest) == {} <==> UnderCap(st, decls, guest)))
            && (UnderCap(st, decls, guest) ==>
                  && n == |GuestCells(st, decls, guest)|
                  && merged == DeclsMerged(DeviceCopied(st, guest, account, now), decls, guest, account, now))
  {
    hide *;
    var start, after := DeviceCopied(st, guest, account, now), Deleted(merged, "User", guest);
    OnlyUsersChange(st, merged, guest, account, now);
    SameElsewhere(st, start, decls, guest);
    SameElsewhere(merged, after, decls, guest);
    if DistinctNames(decls) { CompleteIff(decls, start, merged, guest); }
    if UnderCap(st, decls, guest) { AllIsCounted(start, decls, guest, account, now, merged, n); }
    OtherTablesConserved(decls, start, merged, guest, account, n, st, after);
  }

  lemma OnlyUsersChange(st: Store, merged: Store, guest: string, account: string, now: string)
    ensures forall r :: r != "User" ==> TableOf(DeviceCopied(st, guest, account, now), r) == TableOf(st, r)
    ensures forall r :: r != "User" ==> TableOf(Deleted(merged, "User", guest), r) == TableOf(merged, r)
  {}

  lemma AllIsCounted(st: Store, decls: seq<ResourceDecl>, guest: string, account: string, now: string, merged: Store,
                     n: int)
    requires guest != account && merged == DeclsMerged(st, decls, guest, account, now)
    requires Conserved(decls, st, merged, guest, account, n)
    ensures n == |GuestCells(st, decls, guest)|
  {
    NoCellsLeft(st, decls, guest, account, now);
  }

  lemma OtherTablesConserved(decls: seq<ResourceDecl>, a: Store, b: Store, guest: string, account: string, n: int,
                             a': Store, b': Store)
    requires Conserved(decls, a, b, guest, account, n)
    requires forall r :: r != "User" ==> TableOf(a, r) == TableOf(a', r)
    requires forall r :: r != "User" ==> TableOf(b', r) == TableOf(b, r)
    ensures Conserved(decls, WithoutUser(a'), WithoutUser(b'), guest, account, n)
  {
    hide GuestCells, Covers, CellKept, UnderCap;
    SameElsewhere(a, WithoutUser(a'), decls, guest);
    SameElsewhere(b, WithoutUser(b'), decls, guest);
    forall r ensures RowsKept(decls, r, TableOf(WithoutUser(a'), r), TableOf(WithoutUser(b'), r), guest, account) {
      assert RowsKept(decls, r, TableOf(a, r), TableOf(b, r), guest, account);
    }
  }

  /** The whole merge, read off the rows: other resources keep their rows with only owners moved;
      of the users exactly the guest is gone. */
  lemma MergeOutcome(st: Store, decls: seq<ResourceDecl>, guest: string, account: string, now: string, resource: string)
    requires guest != account
    ensures var after :=
            Deleted(DeclsMerged(DeviceCopied(st, guest, account, now), decls, guest, account, now), "User", guest);
            && (resource != "User" ==>
                 RowsMoved(decls, resource, TableOf(st, resource), TableOf(after, resource), guest, account))
            && TableOf(after, "User").Keys == TableOf(st, "User").Keys - {guest}
            && (forall id :: id in TableOf(after, "User") && id != account ==> forall field :: field != "updated_at" ==>
                  Cell(TableOf(after, "User")[id], field) == Cell(TableOf(st, "User")[id], field))
  {
    hide GuestCells, DeclsMerged, UnderCap;
    var start := DeviceCopied(st, guest, account, now);
    MergeMovesRows(start, decls, guest, account, now, resource);
    MergeMovesRows(start, decls, guest, account, now, "User");
    forall field ensures !Covers(decls, "User", field) {}
    var moved := DeclsMerged(start, decls, guest, account, now);
    forall id, field | id in TableOf(start, "User") && field != "updated_at"
      ensures Cell(TableOf(moved, "User")[id], field) == Cell(TableOf(start, "User")[id], field)
    {
      assert RowsMoved(decls, "User", TableOf(start, "User"), TableOf(moved, "User"), guest, account);
    }
  }
}
