/** The query builder of the in-memory store: filters applied row by row, then order, offset and limit. */
module MemoryQueries {
  import opened Text
  import opened MemoryStores

  /** A query argument: one value, or a list of values. */
  datatype Arg = Scalar(v: Val) | ListOf(vs: seq<Val>)

  datatype Filter = Filter(field: string, op: string, value: Arg)

  /** The regular-expression match behind the like operator, given pattern and text. */
  type Like = (string, string) -> bool

  function ShowList(vs: seq<Val>): string {
    if vs == [] then "" else if |vs| == 1 then Show(vs[0]) else Show(vs[0]) + " " + ShowList(vs[1..])
  }

  function ShowArg(a: Arg): string {
    match a
    case Scalar(v) => Show(v)
    case ListOf(vs) => "[" + ShowList(vs) + "]"
  }

  /** An operator the switch does not name filters nothing. */
  predicate Passes(op: string, f: Filter, r: Record, like: Like) {
    var text, arg := Show(Cell(r, f.field)), ShowArg(f.value);
    if op == "=" || op == "eq" then text == arg
    else if op == "!=" || op == "neq" then text != arg
    else if op == ">" || op == "gt" then Less(arg, text)
    else if op == "<" || op == "lt" then Less(text, arg)
    else if op == ">=" || op == "gte" then !Less(text, arg)
    else if op == "<=" || op == "lte" then !Less(arg, text)
    else if op == "in" then f.value.ListOf? && exists v <- f.value.vs :: text == Show(v)
    else if op == "like" then like(arg, text)
    else true
  }

  /** What each operator asks of the printed cell and the printed argument. */
  lemma OperatorsMean(f: Filter, r: Record, like: Like)
    ensures var text, arg := Show(Cell(r, f.field)), ShowArg(f.value);
            && (Passes("=", f, r, like) <==> text == arg)
            && (Passes("<", f, r, like) <==> Less(text, arg))
            && (Passes(">", f, r, like) <==> Less(arg, text))
            && (Passes("like", f, r, like) <==> like(arg, text))
            && (Passes("in", f, r, like) <==> f.value.ListOf? && exists v :: v in f.value.vs && Show(v) == text)
  {}

  /** The other operators are negations and other names of these; an unknown one passes every row. */
  lemma OtherOperatorsMean(f: Filter, r: Record, like: Like)
    ensures Passes("!=", f, r, like) == Passes("neq", f, r, like) == !Passes("=", f, r, like)
    ensures Passes(">=", f, r, like) == Passes("gte", f, r, like) == !Passes("<", f, r, like)
    ensures Passes("<=", f, r, like) == Passes("lte", f, r, like) == !Passes(">", f, r, like)
    ensures Passes("eq", f, r, like) == Passes("=", f, r, like)
    ensures Passes("lt", f, r, like) == Passes("<", f, r, like)
    ensures Passes("gt", f, r, like) == Passes(">", f, r, like)
  {
    hide Less, ShowArg;
  }

  lemma UnknownPasses(op: string, f: Filter, r: Record, like: Like)
    requires op !in KNOWN_OPS
    ensures Passes(op, f, r, like)
  {}

  predicate PassesAll(fs: seq<Filter>, r: Record, like: Like) {
    forall i | 0 <= i < |fs| :: Passes(fs[i].op, fs[i], r, like)
  }

  /** Count alone folds the operator's case. */
  predicate PassesAllFolded(fs: seq<Filter>, r: Record, like: Like) {
    forall i | 0 <= i < |fs| :: Passes(ToLower(fs[i].op), fs[i], r, like)
  }

  function Matching(t: Table, fs: seq<Filter>, like: Like): set<string> {
    set id | id in t && PassesAll(fs, t[id], like)
  }

  function Counted(t: Table, fs: seq<Filter>, like: Like): set<string> {
    set id | id in t && PassesAllFolded(fs, t[id], like)
  }

  predicate Precedes(r: Record, s: Record, field: string, desc: bool) {
    if desc then Less(Show(Cell(s, field)), Show(Cell(r, field))) else Less(Show(Cell(r, field)), Show(Cell(s, field)))
  }

  ghost predicate Ordered(t: Table, ids: seq<string>, field: string, desc: bool)
    requires forall id :: id in ids ==> id in t
  {
    forall i, j :: 0 <= i < j < |ids| ==> !Precedes(t[ids[j]], t[ids[i]], field, desc)
  }

  /** `ids` lists the matching rows in an order the query allows. */
  ghost predicate Listing(t: Table, matching: set<string>, field: string, desc: bool, ids: seq<string>) {
    && matching <= t.Keys
    && Enumerates(ids, matching)
    && (forall id :: id in ids ==> id in t)
    && (field != "" ==> Ordered(t, ids, field, desc))
  }

  // ---------------------------------------------------------------------------
  // Paging
  // ---------------------------------------------------------------------------

  /** No two matching rows print the same in the order field. */
  ghost predicate DistinctKeys(t: Table, matching: set<string>, field: string) {
    forall x, y :: x in matching && y in matching && x in t && y in t && x != y ==>
      Show(Cell(t[x], field)) != Show(Cell(t[y], field))
  }

  lemma ListingHead(t: Table, matching: set<string>, field: string, desc: bool, ids: seq<string>, id: string)
    requires field != "" && Listing(t, matching, field, desc, ids) && DistinctKeys(t, matching, field)
    requires id in matching && ids != [] && id != ids[0]
    ensures ids[0] in matching && Precedes(t[ids[0]], t[id], field, desc)
  {
    EnumeratesMembers(ids, matching);
    var j :| 0 <= j < |ids| && ids[j] == id;
    LessIsStrictOrder(Show(Cell(t[ids[0]], field)), Show(Cell(t[id], field)));
  }

  lemma ListingTail(t: Table, matching: set<string>, field: string, desc: bool, ids: seq<string>)
    requires Listing(t, matching, field, desc, ids) && ids != []
    ensures Listing(t, matching - {ids[0]}, field, desc, ids[1..])
  {
    assert ids == [ids[0]] + ids[1..];
    EnumeratesMembers(ids, matching);
    assert multiset(ids[1..]) == multiset(matching) - multiset{ids[0]};
  }

  /** With distinct keys there is only one ordered listing. */
  lemma {:induction false} OneListing(t: Table, matching: set<string>, field: string, desc: bool,
                                      xs: seq<string>, ys: seq<string>)
    requires field != "" && DistinctKeys(t, matching, field)
    requires Listing(t, matching, field, desc, xs) && Listing(t, matching, field, desc, ys)
    ensures xs == ys
    decreases |xs|
  {
    EnumeratesMembers(xs, matching);
    EnumeratesMembers(ys, matching);
    if xs != [] {
      if xs[0] != ys[0] {
        ListingHead(t, matching, field, desc, xs, ys[0]);
        ListingHead(t, matching, field, desc, ys, xs[0]);
        LessIsStrictOrder(Show(Cell(t[xs[0]], field)), Show(Cell(t[ys[0]], field)));
      }
      ListingTail(t, matching, field, desc, xs);
      ListingTail(t, matching, field, desc, ys);
      OneListing(t, matching - {xs[0]}, field, desc, xs[1..], ys[1..]);
    }
  }

  function Concat<T>(pages: seq<seq<T>>): seq<T> {
    if pages == [] then [] else Concat(pages[..|pages| - 1]) + pages[|pages| - 1]
  }

  /** The offset of page `i`: 0, n, 2n, ... */
  function PageStart(i: nat, n: nat): nat {
    if i == 0 then 0 else PageStart(i - 1, n) + n
  }

  function UpTo<T>(all: seq<T>, end: nat): seq<T> {
    if end < |all| then all[..end] else all
  }

  lemma OnePageMore<T>(all: seq<T>, start: nat, n: nat)
    requires n > 0
    ensures UpTo(all, start) + Page(all, start, n) == UpTo(all, start + n)
  {}

  lemma {:induction false} PagesOfOneList<T>(all: seq<T>, n: nat, pages: seq<seq<T>>)
    requires n > 0
    requires forall i :: 0 <= i < |pages| ==> pages[i] == Page(all, PageStart(i, n), n)
    ensures Concat(pages) == UpTo(all, PageStart(|pages|, n))
    decreases |pages|
  {
    if pages != [] {
      var k := |pages| - 1;
      PagesOfOneList(all, n, pages[..k]);
      OnePageMore(all, PageStart(k, n), n);
    } else {
      assert UpTo(all, 0) == [];
    }
  }

  /** Ordered by a field with distinct values, the pages at offsets 0, n, 2n, ... with limit n,
      each from its own run of the query, concatenate to the one sorted list of all matching rows. */
  lemma PagesConcatenate(t: Table, matching: set<string>, field: string, desc: bool,
                         n: nat, pages: seq<seq<Record>>, all: seq<string>)
    requires n > 0 && field != "" && DistinctKeys(t, matching, field)
    requires forall i :: 0 <= i < |pages| ==>
               exists ids :: Listing(t, matching, field, desc, ids) &&
                 pages[i] == Page(Fetch(t, ids), PageStart(i, n), n)
    requires Listing(t, matching, field, desc, all)
    requires PageStart(|pages|, n) >= |matching|
    ensures Concat(pages) == Fetch(t, all) && |all| == |matching|
  {
    EnumeratesMembers(all, matching);
    forall i | 0 <= i < |pages| ensures pages[i] == Page(Fetch(t, all), PageStart(i, n), n) {
      var ids :| Listing(t, matching, field, desc, ids) && pages[i] == Page(Fetch(t, ids), PageStart(i, n), n);
      OneListing(t, matching, field, desc, ids, all);
    }
    PagesOfOneList(Fetch(t, all), n, pages);
  }

  const KNOWN_OPS := {"=", "eq", "!=", "neq", ">", "gt", "<", "lt", ">=", "gte", "<=", "lte", "in", "like"}

  /** Written in lower case, or unknown in any case. */
  predicate CaseFree(op: string) {
    ToLower(op) == op || ToLower(op) !in KNOWN_OPS
  }

  lemma KnownAreLower(op: string)
    requires op in KNOWN_OPS
    ensures ToLower(op) == op
  {
    assert op == "=" || op == "eq" || op == "!=" || op == "neq" || op == ">" || op == "gt" || op == "<" || op == "lt"
      || op == ">=" || op == "gte" || op == "<=" || op == "lte" || op == "in" || op == "like";
  }

  lemma CaseFreePasses(f: Filter, r: Record, like: Like)
    requires CaseFree(f.op)
    ensures Passes(ToLower(f.op), f, r, like) == Passes(f.op, f, r, like)
  {
    if f.op in KNOWN_OPS { KnownAreLower(f.op); }
  }

  /** For such operators Count counts exactly what Execute lists without a limit. */
  lemma CountAgrees(t: Table, fs: seq<Filter>, like: Like)
    requires forall i :: 0 <= i < |fs| ==> CaseFree(fs[i].op)
    ensures Counted(t, fs, like) == Matching(t, fs, like)
  {
    forall id | id in t ensures PassesAllFolded(fs, t[id], like) == PassesAll(fs, t[id], like) {
      forall i | 0 <= i < |fs|
        ensures Passes(ToLower(fs[i].op), fs[i], t[id], like) == Passes(fs[i].op, fs[i], t[id], like)
      {
        CaseFreePasses(fs[i], t[id], like);
      }
    }
  }

  ghost predicate CountsWhatItLists(op: string) {
    forall t, field, value, like :: var fs := [Filter(field, op, value)]; Counted(t, fs, like) == Matching(t, fs, like)
  }

  /** A cell and an argument that a known operator rejects. */
  function Rejected(op: string): (string, string) {
    if op == "=" || op == "eq" || op == "<=" || op == "lte" then ("x", "")
    else if op == ">=" || op == "gte" then ("", "x")
    else ("x", "x")
  }

  lemma RejectedFails(op: string)
    requires op in KNOWN_OPS
    ensures !Passes(op, Filter("a", op, Scalar(Str(Rejected(op).1))), map["a" := Str(Rejected(op).0)], (_, _) => false)
  {
    assert op == "=" || op == "eq" || op == "!=" || op == "neq" || op == ">" || op == "gt" || op == "<" || op == "lt"
      || op == ">=" || op == "gte" || op == "<=" || op == "lte" || op == "in" || op == "like";
  }

  /** Count and Execute agree on every table and value if and only if the operator is of that kind. */
  lemma CountAgreesIff(op: string)
    ensures CountsWhatItLists(op) <==> CaseFree(op)
  {
    if CaseFree(op) {
      forall t, field, value, like
        ensures Counted(t, [Filter(field, op, value)], like) == Matching(t, [Filter(field, op, value)], like)
      {
        CountAgrees(t, [Filter(field, op, value)], like);
      }
    } else {
      CaseMatters(op);
    }
  }

  lemma CaseMatters(op: string)
    requires !CaseFree(op)
    ensures !CountsWhatItLists(op)
  {
    var low := ToLower(op);
    if op in KNOWN_OPS { KnownAreLower(op); }
    var row: Record, value := map["a" := Str(Rejected(low).0)], Scalar(Str(Rejected(low).1));
    RejectedFails(low);
    hide ToLower, Rejected, KNOWN_OPS;
    var t, fs, like: Like := map["1" := row], [Filter("a", op, value)], (_, _) => false;
    assert !Passes(ToLower(fs[0].op), fs[0], row, like);
    assert "1" in Matching(t, fs, like) && "1" !in Counted(t, fs, like);
  }

  // ---------------------------------------------------------------------------
  // The builder
  // ---------------------------------------------------------------------------

  class MemoryQueryBuilder {
    const store: MemoryStore
    const resource: string
    var filters: seq<Filter>
    var limit: int
    var offset: int
    var orderBy: string
    var orderDesc: bool

    constructor (store: MemoryStore, resource: string)
      ensures this.store == store && this.resource == resource
      ensures filters == [] && limit == 0 && offset == 0 && orderBy == ""
    {
      this.store, this.resource := store, resource;
      filters, limit, offset, orderBy, orderDesc := [], 0, 0, "", false;
    }

    method Where(field: string, op: string, value: Arg)
      modifies this`filters
      ensures filters == old(filters) + [Filter(field, op, value)]
    {
      filters := filters + [Filter(field, op, value)];
    }

    method WhereIn(field: string, values: seq<Val>)
      modifies this`filters
      ensures filters == old(filters) + [Filter(field, "in", ListOf(values))]
    {
      filters := filters + [Filter(field, "in", ListOf(values))];
    }

    method OrderBy(field: string, desc: bool)
      modifies this`orderBy, this`orderDesc
      ensures orderBy == field && orderDesc == desc
    {
      orderBy, orderDesc := field, desc;
    }

    method Limit(n: int)
      modifies this`limit
      ensures limit == n
    {
      limit := n;
    }

    method Offset(n: int)
      modifies this`offset
      ensures offset == n
    {
      offset := n;
    }

    /** Some page of some ordered listing of the matching rows. */
    method Execute(like: Like) returns (rows: seq<Record>, ghost ids: seq<string>)
      ensures var t := TableOf(store.Contents(), resource);
              && Listing(t, Matching(t, filters, like), orderBy, orderDesc, ids)
              && rows == Page(Fetch(t, ids), offset, limit)
      ensures var t := TableOf(store.Contents(), resource);
              exists all :: Listing(t, Matching(t, filters, like), orderBy, orderDesc, all) &&
                rows == Page(Fetch(t, all), offset, limit)
      ensures forall i, j :: 0 <= i < j < |rows| && orderBy != "" ==>
                var a, b := Show(Cell(rows[i], orderBy)), Show(Cell(rows[j], orderBy));
                if orderDesc then !Less(a, b) else !Less(b, a)
    {
      hide Less, Precedes, Ordered, Cell;
      var records := if resource in store.data then store.data[resource] else map[];
      var found := Select(records, like);
      if orderBy != "" {
        found := SortIds(records, found, orderBy, orderDesc);
      }
      ids := found;
      rows := Fetch(records, found);
      if orderBy != "" { PageInOrder(records, found, orderBy, orderDesc, offset, limit); }
      if offset > 0 && offset < |rows| {
        rows := rows[offset..];
      } else if offset >= |rows| {
        return [], ids;
      }
      if limit > 0 && limit < |rows| {
        rows := rows[..limit];
      }
    }

    method Count(like: Like) returns (count: nat)
      ensures var t := TableOf(store.Contents(), resource); count == |Counted(t, filters, like)|
    {
      var records := if resource in store.data then store.data[resource] else map[];
      count := 0;
      var rest := records.Keys;
      ghost var picked: set<string> := {};
      while rest != {}
        invariant rest <= records.Keys && count == |picked|
        invariant forall id :: id in picked <==>
                  id in records.Keys - rest && PassesAllFolded(filters, records[id], like)
      {
        var id :| id in rest;
        var matched := TestRow(records[id], true, like);
        if matched {
          count, picked := count + 1, picked + {id};
        }
        rest := rest - {id};
      }
      assert picked == Counted(records, filters, like);
    }

    method Select(records: Table, like: Like) returns (found: seq<string>)
      ensures Enumerates(found, Matching(records, filters, like))
      ensures forall id :: id in found ==> id in records
    {
      found := [];
      var rest := records.Keys;
      ghost var picked: set<string> := {};
      while rest != {}
        invariant rest <= records.Keys && Enumerates(found, picked)
        invariant forall id :: id in picked <==> id in records.Keys - rest && PassesAll(filters, records[id], like)
        invariant forall id :: id in found ==> id in records
      {
        var id :| id in rest;
        var matched := TestRow(records[id], false, like);
        if matched {
          EnumeratesOneMore(found, picked, id);
          found, picked := found + [id], picked + {id};
        }
        rest := rest - {id};
      }
      assert picked == Matching(records, filters, like);
    }

    /** The filter loop, which stops at the first filter that fails. */
    method TestRow(row: Record, fold: bool, like: Like) returns (matched: bool)
      ensures matched == if fold then PassesAllFolded(filters, row, like) else PassesAll(filters, row, like)
    {
      matched := true;
      var i := 0;
      while i < |filters| && matched
        invariant 0 <= i <= |filters|
        invariant matched <==> forall j :: 0 <= j < i ==>
                    Passes(if fold then ToLower(filters[j].op) else filters[j].op, filters[j], row, like)
      {
        matched := Passes(if fold then ToLower(filters[i].op) else filters[i].op, filters[i], row, like);
        i := i + 1;
      }
    }
  }

  lemma PageInOrder(t: Table, ids: seq<string>, field: string, desc: bool, offset: int, limit: int)
    requires (forall id :: id in ids ==> id in t) && Ordered(t, ids, field, desc)
    ensures var rows := Page(Fetch(t, ids), offset, limit);
            forall i, j :: 0 <= i < j < |rows| ==>
              var a, b := Show(Cell(rows[i], field)), Show(Cell(rows[j], field));
              if desc then !Less(a, b) else !Less(b, a)
  {
    hide Less;
    PageIs(Fetch(t, ids), offset, limit);
    var rows, from := Page(Fetch(t, ids), offset, limit), if offset > 0 then offset else 0;
    forall i, j | 0 <= i < j < |rows| ensures !Precedes(rows[j], rows[i], field, desc) {
      assert rows[i] == t[ids[from + i]] && rows[j] == t[ids[from + j]];
    }
  }

  /** Stands for the library sort: any ordered permutation would do. */
  method SortIds(t: Table, ids: seq<string>, field: string, desc: bool) returns (sorted: seq<string>)
    requires forall id :: id in ids ==> id in t
    ensures multiset(sorted) == multiset(ids)
    ensures forall id :: id in sorted ==> id in t
    ensures Ordered(t, sorted, field, desc)
    ensures forall i, j :: 0 <= i < j < |sorted| ==>
              var a, b := Show(Cell(t[sorted[i]], field)), Show(Cell(t[sorted[j]], field));
              if desc then !Less(a, b) else !Less(b, a)
  {
    hide Less;
    sorted := [];
    for i := 0 to |ids|
      invariant multiset(sorted) == multiset(ids[..i])
      invariant forall id :: id in sorted ==> id in t
      invariant Ordered(t, sorted, field, desc)
    {
      assert ids[..i + 1] == ids[..i] + [ids[i]];
      assert ids[i] in ids;
      sorted := InsertId(t, sorted, ids[i], field, desc);
    }
    assert ids[..|ids|] == ids;
    forall id | id in sorted ensures id in t { assert id in multiset(sorted); }
  }

  lemma PrecedesTransitive(r: Record, s: Record, u: Record, field: string, desc: bool)
    ensures !Precedes(s, r, field, desc) && !Precedes(u, s, field, desc) ==> !Precedes(u, r, field, desc)
    ensures Precedes(r, s, field, desc) ==> !Precedes(s, r, field, desc)
  {
    var a, b, c := Show(Cell(r, field)), Show(Cell(s, field)), Show(Cell(u, field));
    LessIsStrictOrder(a, b);
    LessIsStrictOrder(b, c);
    LessIsStrictOrder(a, c);
    if Less(a, b) && Less(b, c) { LessTransitive(a, b, c); }
    if Less(c, b) && Less(b, a) { LessTransitive(c, b, a); }
  }

  method InsertId(t: Table, sorted: seq<string>, id: string, field: string, desc: bool) returns (r: seq<string>)
    requires id in t && (forall x :: x in sorted ==> x in t) && Ordered(t, sorted, field, desc)
    ensures multiset(r) == multiset(sorted) + multiset{id}
    ensures forall x :: x in r ==> x in t
    ensures Ordered(t, r, field, desc)
  {
    hide Precedes;
    var k := |sorted|;
    while k > 0 && Precedes(t[id], t[sorted[k - 1]], field, desc)
      invariant 0 <= k <= |sorted|
      invariant forall j :: k <= j < |sorted| ==> Precedes(t[id], t[sorted[j]], field, desc)
    {
      k := k - 1;
    }
    var before, after := sorted[..k], sorted[k..];
    r := before + [id] + after;
    assert sorted == before + after;
    if k > 0 {
      forall x | x in before ensures !Precedes(t[id], t[x], field, desc) {
        PrecedesTransitive(t[x], t[sorted[k - 1]], t[id], field, desc);
      }
    }
    forall x | x in after ensures !Precedes(t[x], t[id], field, desc) {
      PrecedesTransitive(t[id], t[x], t[id], field, desc);
    }
    InsertedOrdered(t, before, after, id, field, desc);
  }

  lemma InsertedOrdered(t: Table, before: seq<string>, after: seq<string>, id: string, field: string, desc: bool)
    requires id in t && (forall x :: x in before + after ==> x in t) && Ordered(t, before + after, field, desc)
    requires forall x :: x in before ==> !Precedes(t[id], t[x], field, desc)
    requires forall x :: x in after ==> !Precedes(t[x], t[id], field, desc)
    ensures forall x :: x in before + [id] + after ==> x in t
    ensures Ordered(t, before + [id] + after, field, desc)
  {
    var rest, all := before + after, before + [id] + after;
    var k := |before|;
    forall i, j | 0 <= i < j < |all|
      ensures !Precedes(t[all[j]], t[all[i]], field, desc)
    {
      if i == k {
        assert all[j] == after[j - k - 1];
      } else if j == k {
        assert all[i] == before[i];
      } else {
        var i', j' := if i < k then i else i - 1, if j < k then j else j - 1;
        assert all[i] == rest[i'] && all[j] == rest[j'];
      }
    }
  }
}
