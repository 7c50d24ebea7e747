/**
 The tree part of the Postgres store: a `parent_id` column beside a `<table>_hierarchies`
 relation of (ancestor, descendant, generations).  Every SQL statement is one atomic set
 operation that obeys the declared primary and foreign keys.
 */
module ClosureTree {
  import opened Collections
  import opened Options

  type Id = int

  datatype HRow = HRow(ancestor: Id, descendant: Id, generations: nat)

  /** The parent of every row; `None` is SQL NULL. */
  type Forest = map<Id, Option<Id>>

  datatype Db = Db(rows: Forest, hier: set<HRow>)

  /** What an update payload says about `parent_id`: nothing, or a new value. */
  datatype ParentChange = Keep | SetTo(parent: Option<Id>)

  datatype Op =
    | Create(id: Id, parent: Option<Id>)
    | Update(id: Id, change: ParentChange)
    | Delete(id: Id)

  // ---------------------------------------------------------------------------
  // What the relation should say
  // ---------------------------------------------------------------------------

  /** The `g`-th ancestor of `d`, if there is one. */
  ghost function Up(f: Forest, d: Id, g: nat): Option<Id>
    decreases g
  {
    if d !in f then None
    else if g == 0 then Some(d)
    else if f[d].None? then None
    else Up(f, f[d].value, g - 1)
  }

  /** The relation is the reflexive-transitive closure of the forest, with true path lengths. */
  ghost predicate Closure(h: set<HRow>, f: Forest) {
    forall a, d, g: nat :: HRow(a, d, g) in h <==> Up(f, d, g) == Some(a)
  }

  ghost predicate Acyclic(f: Forest) {
    forall x, g: nat :: Up(f, x, g) == Some(x) ==> g == 0
  }

  /** `d` lies in the subtree of `x`, as the relation records it. */
  predicate InSubtree(h: set<HRow>, x: Id, d: Id) {
    exists r <- h :: r.ancestor == x && r.descendant == d
  }

  /** No parent points outside the table. */
  ghost predicate ForeignKeys(f: Forest) {
    forall x :: x in f && f[x].Some? ==> f[x].value in f
  }

  /** `f` keeps each row's recorded parent, or detaches the row. */
  ghost predicate Detaches(f: Forest, rows: Forest) {
    && f.Keys == rows.Keys
    && forall x :: x in f ==> f[x] == None || f[x] == rows[x]
  }

  ghost predicate AttachedBy(db: Db, f: Forest) {
    && ForeignKeys(db.rows)
    && Detaches(f, db.rows)
    && Acyclic(f)
    && Closure(db.hier, f)
  }

  /** The invariant of every run: the relation is the closure of some acyclic forest
      in which each node hangs under its `parent_id` or is a root. */
  ghost predicate Invariant(db: Db) {
    exists f :: AttachedBy(db, f)
  }

  /** The relation is the exact closure of the `parent_id` column. */
  ghost predicate Exact(db: Db) {
    Closure(db.hier, db.rows)
  }

  // ---------------------------------------------------------------------------
  // The statements
  // ---------------------------------------------------------------------------

  predicate SameKey(r: HRow, s: HRow) {
    r.ancestor == s.ancestor && r.descendant == s.descendant
  }

  predicate BreaksPrimaryKey(h: set<HRow>, added: set<HRow>) {
    || (exists r <- added, s <- h :: SameKey(r, s))
    || (exists r <- added, s <- added :: r != s && SameKey(r, s))
  }

  predicate BreaksForeignKey(rows: Forest, added: set<HRow>) {
    exists r <- added :: r.ancestor !in rows || r.descendant !in rows
  }

  /** INSERT into the hierarchy table: all rows or, on a key violation, none. */
  function InsertRows(rows: Forest, h: set<HRow>, added: set<HRow>): set<HRow> {
    if BreaksPrimaryKey(h, added) || BreaksForeignKey(rows, added) then h else h + added
  }

  function PathsToNewChild(h: set<HRow>, parent: Id, id: Id): set<HRow> {
    set r | r in h && r.descendant == parent :: HRow(r.ancestor, id, r.generations + 1)
  }

  function Disconnect(h: set<HRow>, id: Id): set<HRow> {
    var descendants := set r | r in h && r.ancestor == id :: r.descendant;
    var ancestors := set r | r in h && r.descendant == id && r.ancestor != r.descendant :: r.ancestor;
    set r | r in h && !(r.descendant in descendants && r.ancestor in ancestors)
  }

  function CrossProduct(h: set<HRow>, id: Id, newParent: Id): set<HRow> {
    set super, sub | super in h && sub in h && super.descendant == newParent && sub.ancestor == id ::
      HRow(super.ancestor, sub.descendant, super.generations + sub.generations + 1)
  }

  /** The guard of both tree writes: NULL and the id 0 mean "no parent". */
  predicate NamesParent(parent: Option<Id>) {
    parent.Some? && parent.value != 0
  }

  predicate Referenced(rows: Forest, id: Id) {
    exists x <- rows.Keys :: x != id && rows[x] == Some(id)
  }

  /** Whether the statement on the table itself is accepted by its keys. */
  predicate Accepted(db: Db, op: Op) {
    match op
    case Create(id, parent) => id !in db.rows && (parent.None? || parent.value in db.rows || parent.value == id)
    case Update(id, change) => id in db.rows && (change.Keep? || change.parent.None? || change.parent.value in db.rows)
    case Delete(id) => id in db.rows && !Referenced(db.rows, id)
  }

  function Step(db: Db, op: Op): Db {
    if !Accepted(db, op) then db else
    match op
    case Create(id, parent) =>
      var rows := db.rows[id := parent];
      var withSelf := InsertRows(rows, db.hier, {HRow(id, id, 0)});
      if NamesParent(parent) then Db(rows, InsertRows(rows, withSelf, PathsToNewChild(withSelf, parent.value, id)))
      else Db(rows, withSelf)
    case Update(id, change) =>
      if change.Keep? then db else
      var rows := db.rows[id := change.parent];
      var cut := Disconnect(db.hier, id);
      if NamesParent(change.parent) then Db(rows, InsertRows(rows, cut, CrossProduct(cut, id, change.parent.value)))
      else Db(rows, cut)
    case Delete(id) =>
      Db(db.rows - {id}, set r | r in db.hier && r.ancestor != id && r.descendant != id)
  }

  function Run(db: Db, ops: seq<Op>): Db
    decreases |ops|
  {
    if ops == [] then db else Run(Step(db, ops[0]), ops[1..])
  }

  const EMPTY := Db(map[], {})

  // ---------------------------------------------------------------------------
  // Climbing
  // ---------------------------------------------------------------------------

  lemma {:induction false} UpCompose(f: Forest, d: Id, j: nat, k: nat)
    ensures Up(f, d, j + k) == if Up(f, d, j).None? then None else Up(f, Up(f, d, j).value, k)
    decreases j
  {
    if d in f && j > 0 && f[d].Some? {
      UpCompose(f, f[d].value, j - 1, k);
    }
  }

  lemma {:induction false} UpStays(f: Forest, d: Id, g: nat)
    ensures Up(f, d, g).Some? ==> d in f && Up(f, d, g).value in f
    decreases g
  {
    if g > 0 && d in f && f[d].Some? {
      UpStays(f, f[d].value, g - 1);
    }
  }

  /** In an acyclic forest an ancestor sits at one distance only. */
  lemma OneDistance(f: Forest, a: Id, d: Id, j: nat, k: nat)
    requires Acyclic(f) && Up(f, d, j) == Some(a) && Up(f, d, k) == Some(a)
    ensures j == k
  {
    var low, high := if j < k then j else k, if j < k then k else j;
    UpCompose(f, d, low, high - low);
  }

  /** Detaching `id` cuts exactly the climbs that would have gone on past it. */
  lemma {:induction false} UpDetached(f: Forest, id: Id, d: Id, g: nat)
    requires id in f
    ensures (forall k: nat :: k < g ==> Up(f, d, k) != Some(id)) ==> Up(f[id := None], d, g) == Up(f, d, g)
    ensures forall k: nat :: k < g && Up(f, d, k) == Some(id) ==> Up(f[id := None], d, g) == None
    decreases g
  {
    if d in f && g > 0 {
      if d == id {
        assert Up(f, d, 0) == Some(id);
      } else if f[d].Some? {
        var p := f[d].value;
        UpDetached(f, id, p, g - 1);
        forall k: nat | k < g && Up(f, d, k) == Some(id)
          ensures Up(f[id := None], d, g) == None
        {
          assert k > 0 && Up(f, p, k - 1) == Some(id);
        }
        if forall k: nat :: k < g ==> Up(f, d, k) != Some(id) {
          forall k: nat | k < g - 1 ensures Up(f, p, k) != Some(id) {
            assert Up(f, d, k + 1) == Up(f, p, k);
          }
        }
      }
    }
  }

  lemma DetachedIsAcyclic(f: Forest, id: Id)
    requires Acyclic(f) && id in f
    ensures Acyclic(f[id := None])
  {
    var cut := f[id := None];
    forall x, g: nat | Up(cut, x, g) == Some(x)
      ensures g == 0
    {
      UpDetached(f, id, x, g);
    }
  }

  /** The primary key follows from being a closure. */
  lemma UniqueKeys(h: set<HRow>, f: Forest, r: HRow, s: HRow)
    requires Closure(h, f) && Acyclic(f) && r in h && s in h && SameKey(r, s)
    ensures r == s
  {
    assert HRow(r.ancestor, r.descendant, r.generations) in h;
    assert HRow(s.ancestor, s.descendant, s.generations) in h;
    OneDistance(f, r.ancestor, r.descendant, r.generations, s.generations);
  }

  // ---------------------------------------------------------------------------
  // Disconnect
  // ---------------------------------------------------------------------------

  lemma PassesThroughIsCut(h: set<HRow>, f: Forest, id: Id, a: Id, d: Id, g: nat, k: nat)
    requires Closure(h, f) && Acyclic(f)
    requires HRow(a, d, g) in h && k < g && Up(f, d, k) == Some(id)
    ensures HRow(a, d, g) !in Disconnect(h, id)
  {
    UpCompose(f, d, k, g - k);
    var below, above := HRow(id, d, k), HRow(a, id, g - k);
    assert below in h && above in h;
    assert a != id;
  }

  lemma CutPassesThrough(h: set<HRow>, f: Forest, id: Id, a: Id, d: Id, g: nat)
    requires Closure(h, f) && Acyclic(f)
    requires HRow(a, d, g) in h && HRow(a, d, g) !in Disconnect(h, id)
    ensures exists k: nat :: k < g && Up(f, d, k) == Some(id)
  {
    var below :| below in h && below.ancestor == id && below.descendant == d;
    var above :| above in h && above.descendant == id && above.ancestor == a && a != id;
    var k, m := below.generations, above.generations;
    assert HRow(id, d, k) in h && HRow(a, id, m) in h;
    UpCompose(f, d, k, m);
    OneDistance(f, a, d, g, k + m);
    assert k < g && Up(f, d, k) == Some(id);
  }

  /** After the disconnect alone, the relation is the closure with `id` made a root. */
  lemma DisconnectDetaches(h: set<HRow>, f: Forest, id: Id)
    requires Closure(h, f) && Acyclic(f) && id in f
    ensures Closure(Disconnect(h, id), f[id := None])
  {
    forall a, d, g: nat
      ensures HRow(a, d, g) in Disconnect(h, id) <==> Up(f[id := None], d, g) == Some(a)
    {
      UpDetached(f, id, d, g);
      if k: nat :| k < g && Up(f, d, k) == Some(id) {
        if HRow(a, d, g) in h {
          PassesThroughIsCut(h, f, id, a, d, g, k);
        }
      } else if HRow(a, d, g) in h && HRow(a, d, g) !in Disconnect(h, id) {
        CutPassesThrough(h, f, id, a, d, g);
      }
    }
  }

  // ---------------------------------------------------------------------------
  // Connect
  // ---------------------------------------------------------------------------

  /** `id` is a root and `p` is a row outside its subtree. */
  ghost predicate Separate(f: Forest, id: Id, p: Id) {
    && id in f && f[id] == None && p in f
    && forall k: nat :: Up(f, p, k) != Some(id)
  }

  lemma {:induction false} StillSeparate(f: Forest, id: Id, p: Id, j: nat)
    requires Separate(f, id, p)
    ensures Up(f[id := Some(p)], p, j) != Some(id)
    decreases j
  {
    var linked := f[id := Some(p)];
    assert linked[id := None] == f;
    UpDetached(linked, id, p, j);
    forall k: nat | k < j
      ensures Up(linked, p, k) != Some(id)
    {
      StillSeparate(f, id, p, k);
    }
    assert Up(f, p, j) != Some(id);
  }

  lemma SeparateClimb(f: Forest, id: Id, p: Id, g: nat)
    requires Separate(f, id, p)
    ensures Up(f[id := Some(p)], p, g) == Up(f, p, g)
  {
    var linked := f[id := Some(p)];
    assert linked[id := None] == f;
    UpDetached(linked, id, p, g);
    forall k: nat ensures Up(linked, p, k) != Some(id) { StillSeparate(f, id, p, k); }
  }

  /** Below `id` nothing changes; past `id` the climb goes on from the new parent. */
  lemma {:induction false} LinkedClimb(f: Forest, id: Id, p: Id, d: Id, g: nat)
    requires Separate(f, id, p)
    ensures (forall k: nat :: k < g ==> Up(f, d, k) != Some(id)) ==> Up(f[id := Some(p)], d, g) == Up(f, d, g)
    ensures forall k: nat :: k < g && Up(f, d, k) == Some(id) ==> Up(f[id := Some(p)], d, g) == Up(f, p, g - k - 1)
    decreases g
  {
    var linked := f[id := Some(p)];
    if d in f && g > 0 {
      if d == id {
        SeparateClimb(f, id, p, g - 1);
        assert Up(f, d, 0) == Some(id);
        assert forall k: nat :: k > 0 ==> Up(f, d, k) == None;
      } else if f[d].Some? {
        var q := f[d].value;
        LinkedClimb(f, id, p, q, g - 1);
        forall k: nat | k < g && Up(f, d, k) == Some(id)
          ensures Up(linked, d, g) == Up(f, p, g - k - 1)
        {
          assert k > 0 && Up(f, q, k - 1) == Some(id);
        }
        if forall k: nat :: k < g ==> Up(f, d, k) != Some(id) {
          forall k: nat | k < g - 1 ensures Up(f, q, k) != Some(id) {
            assert Up(f, d, k + 1) == Up(f, q, k);
          }
        }
      }
    }
  }

  lemma LinkedIsAcyclic(f: Forest, id: Id, p: Id)
    requires Separate(f, id, p) && Acyclic(f)
    ensures Acyclic(f[id := Some(p)])
  {
    var linked := f[id := Some(p)];
    forall x, g: nat | Up(linked, x, g) == Some(x)
      ensures g == 0
    {
      LinkedClimb(f, id, p, x, g);
      if k: nat :| k < g && Up(f, x, k) == Some(id) {
        // x lies under id, and would now also lie above p: then id would lie above p
        UpCompose(f, p, g - k - 1, k);
      }
    }
  }

  /** A climb from `d` reaches `id` after `k` steps and, going on from `p`, reaches `a` after `g`. */
  ghost predicate ClimbsOver(f: Forest, id: Id, p: Id, a: Id, d: Id, g: nat, k: nat) {
    k < g && Up(f, d, k) == Some(id) && Up(f, p, g - k - 1) == Some(a)
  }

  lemma ClimbsOverIsCrossed(h: set<HRow>, f: Forest, id: Id, p: Id, a: Id, d: Id, g: nat, k: nat)
    requires Closure(h, f) && ClimbsOver(f, id, p, a, d, g, k)
    ensures HRow(a, d, g) in CrossProduct(h, id, p)
  {
    var super, sub := HRow(a, p, g - k - 1), HRow(id, d, k);
    assert super in h && sub in h;
    assert HRow(a, d, g) == HRow(super.ancestor, sub.descendant, super.generations + sub.generations + 1);
  }

  lemma CrossedClimbsOver(h: set<HRow>, f: Forest, id: Id, p: Id, r: HRow) returns (k: nat)
    requires Closure(h, f) && r in CrossProduct(h, id, p)
    ensures ClimbsOver(f, id, p, r.ancestor, r.descendant, r.generations, k)
  {
    var super, sub :| super in h && sub in h && super.descendant == p && sub.ancestor == id
      && r == HRow(super.ancestor, sub.descendant, super.generations + sub.generations + 1);
    k := sub.generations;
    assert super == HRow(r.ancestor, p, r.generations - k - 1);
    assert sub == HRow(id, r.descendant, k);
  }

  lemma ConnectedRow(h: set<HRow>, f: Forest, id: Id, p: Id, a: Id, d: Id, g: nat)
    requires Closure(h, f) && Acyclic(f) && Separate(f, id, p)
    ensures HRow(a, d, g) in h + CrossProduct(h, id, p) <==> Up(f[id := Some(p)], d, g) == Some(a)
  {
    hide CrossProduct, Separate, Acyclic;
    var row, added := HRow(a, d, g), CrossProduct(h, id, p);
    LinkedClimb(f, id, p, d, g);
    if k: nat :| k < g && Up(f, d, k) == Some(id) {
      RootEndsClimb(f, id, p, d, g, k);
      assert row !in h;
      if Up(f, p, g - k - 1) == Some(a) {
        ClimbsOverIsCrossed(h, f, id, p, a, d, g, k);
      }
      if row in added {
        var j := CrossedClimbsOver(h, f, id, p, row);
        OneDistance(f, id, d, j, k);
      }
    } else if row in added {
      var j := CrossedClimbsOver(h, f, id, p, row);
    }
  }

  lemma RootEndsClimb(f: Forest, id: Id, p: Id, d: Id, g: nat, k: nat)
    requires Separate(f, id, p) && k < g && Up(f, d, k) == Some(id)
    ensures Up(f, d, g) == None
  {
    UpCompose(f, d, k, g - k);
  }

  lemma ConnectAttaches(h: set<HRow>, f: Forest, id: Id, p: Id)
    requires Closure(h, f) && Acyclic(f) && Separate(f, id, p)
    ensures Closure(h + CrossProduct(h, id, p), f[id := Some(p)])
  {
    forall a, d, g: nat
      ensures HRow(a, d, g) in h + CrossProduct(h, id, p) <==> Up(f[id := Some(p)], d, g) == Some(a)
    {
      ConnectedRow(h, f, id, p, a, d, g);
    }
  }

  lemma ConnectAddsOnlyNewKeys(h: set<HRow>, f: Forest, id: Id, p: Id, r: HRow)
    requires Closure(h, f) && Separate(f, id, p) && r in CrossProduct(h, id, p)
    ensures r !in h
  {
    var k := CrossedClimbsOver(h, f, id, p, r);
    UpCompose(f, r.descendant, k, r.generations - k);
    assert HRow(r.ancestor, r.descendant, r.generations) == r;
  }

  lemma ConnectedKeysDiffer(h: set<HRow>, f: Forest, id: Id, p: Id, r: HRow, s: HRow)
    requires Closure(h, f) && Acyclic(f) && Separate(f, id, p)
    requires r in CrossProduct(h, id, p) && s in h + CrossProduct(h, id, p)
    ensures SameKey(r, s) ==> r == s && s !in h
  {
    ConnectAttaches(h, f, id, p);
    LinkedIsAcyclic(f, id, p);
    ConnectAddsOnlyNewKeys(h, f, id, p, r);
    if SameKey(r, s) {
      UniqueKeys(h + CrossProduct(h, id, p), f[id := Some(p)], r, s);
    }
  }

  lemma ConnectedRowsExist(h: set<HRow>, f: Forest, id: Id, p: Id, r: HRow)
    requires Closure(h, f) && r in CrossProduct(h, id, p)
    ensures r.ancestor in f && r.descendant in f
  {
    var k := CrossedClimbsOver(h, f, id, p, r);
    UpStays(f, r.descendant, k);
    UpStays(f, p, r.generations - k - 1);
  }

  lemma InsertGoesThrough(rows: Forest, h: set<HRow>, added: set<HRow>)
    requires forall r, s :: r in added && s in h + added && SameKey(r, s) ==> r == s && s !in h
    requires forall r :: r in added ==> r.ancestor in rows && r.descendant in rows
    ensures InsertRows(rows, h, added) == h + added
  {}

  lemma InsertRefused(rows: Forest, h: set<HRow>, added: set<HRow>, r: HRow, s: HRow)
    requires r in added && s in h && SameKey(r, s)
    ensures InsertRows(rows, h, added) == h
  {}

  /** The connect never repeats an (ancestor, descendant) pair, so the insert goes through. */
  lemma ConnectKeepsKeys(rows: Forest, h: set<HRow>, f: Forest, id: Id, p: Id)
    requires Closure(h, f) && Acyclic(f) && Separate(f, id, p) && rows.Keys == f.Keys
    ensures InsertRows(rows, h, CrossProduct(h, id, p)) == h + CrossProduct(h, id, p)
  {
    var added := CrossProduct(h, id, p);
    forall r, s | r in added && s in h + added && SameKey(r, s)
      ensures r == s && s !in h
    {
      ConnectedKeysDiffer(h, f, id, p, r, s);
    }
    forall r | r in added
      ensures r.ancestor in rows && r.descendant in rows
    {
      ConnectedRowsExist(h, f, id, p, r);
    }
    InsertGoesThrough(rows, h, added);
  }

  // ---------------------------------------------------------------------------
  // One operation
  // ---------------------------------------------------------------------------

  /** Where a move really hangs the node: under the named parent, unless that lies below it. */
  function MoveTarget(h: set<HRow>, id: Id, parent: Option<Id>): Option<Id> {
    if NamesParent(parent) && !InSubtree(h, id, parent.value) then parent else None
  }

  /** Where a create really hangs the node: a row that names itself becomes a root. */
  function CreateTarget(id: Id, parent: Option<Id>): Option<Id> {
    if NamesParent(parent) && parent.value != id then parent else None
  }

  lemma MoveOutsideSubtree(h: set<HRow>, f: Forest, id: Id, p: Id)
    requires Closure(h, f) && Acyclic(f) && id in f && p in f && !InSubtree(h, id, p)
    ensures Separate(f[id := None], id, p)
  {
    var cut := f[id := None];
    forall k: nat
      ensures Up(cut, p, k) != Some(id)
    {
      UpDetached(f, id, p, k);
      assert HRow(id, p, k) !in h;
    }
  }

  /** A move under the node itself or a descendant: the connect repeats the key (id, id). */
  lemma MoveIntoSubtreeRefused(rows: Forest, h: set<HRow>, f: Forest, id: Id, p: Id)
    requires Closure(h, f) && Acyclic(f) && id in f && InSubtree(h, id, p)
    ensures InsertRows(rows, Disconnect(h, id), CrossProduct(Disconnect(h, id), id, p)) == Disconnect(h, id)
  {
    var cut := Disconnect(h, id);
    DisconnectDetaches(h, f, id);
    var r :| r in h && r.ancestor == id && r.descendant == p;
    var k := r.generations;
    assert HRow(id, p, k) in h;
    UpDetached(f, id, p, k);
    forall j: nat | j < k ensures Up(f, p, j) != Some(id) {
      if Up(f, p, j) == Some(id) { OneDistance(f, id, p, j, k); }
    }
    assert Up(f[id := None], p, k) == Some(id);
    assert ClimbsOver(f[id := None], id, p, id, id, k + 1, 0);
    ClimbsOverIsCrossed(cut, f[id := None], id, p, id, id, k + 1, 0);
    assert HRow(id, id, 0) in cut;
    InsertRefused(rows, cut, CrossProduct(cut, id, p), HRow(id, id, k + 1), HRow(id, id, 0));
  }

  /** The relation's subtree of a node is what lies below it in the forest. */
  lemma SubtreeIsBelow(h: set<HRow>, f: Forest, id: Id, p: Id)
    requires Closure(h, f)
    ensures InSubtree(h, id, p) <==> IsBelow(f, id, p)
  {
    if r :| r in h && r.ancestor == id && r.descendant == p {
      assert HRow(id, p, r.generations) in h;
    }
    if g: nat :| Up(f, p, g) == Some(id) {
      assert HRow(id, p, g) in h;
    }
  }

  /** `p` is `id` or one of its descendants. */
  ghost predicate IsBelow(f: Forest, id: Id, p: Id) {
    exists g: nat :: Up(f, p, g) == Some(id)
  }

  lemma MoveAttaches(db: Db, f: Forest, id: Id, parent: Option<Id>)
    requires AttachedBy(db, f) && Accepted(db, Update(id, SetTo(parent)))
    ensures AttachedBy(Step(db, Update(id, SetTo(parent))), f[id := MoveTarget(db.hier, id, parent)])
  {
    var rows := db.rows[id := parent];
    var cut := Disconnect(db.hier, id);
    DisconnectDetaches(db.hier, f, id);
    DetachedIsAcyclic(f, id);
    if NamesParent(parent) {
      var p := parent.value;
      if InSubtree(db.hier, id, p) {
        MoveIntoSubtreeRefused(rows, db.hier, f, id, p);
      } else {
        MoveOutsideSubtree(db.hier, f, id, p);
        ConnectKeepsKeys(rows, cut, f[id := None], id, p);
        ConnectAttaches(cut, f[id := None], id, p);
        LinkedIsAcyclic(f[id := None], id, p);
        assert f[id := None][id := parent] == f[id := parent];
      }
    }
  }

  /** A move read off the forest: under the new parent, unless that names no row or lies below. */
  lemma MoveHangs(db: Db, f: Forest, id: Id, p: Option<Id>)
    requires AttachedBy(db, f) && Accepted(db, Update(id, SetTo(p)))
    ensures var after := Step(db, Update(id, SetTo(p)));
            && (p.Some? && p.value != 0 && !IsBelow(f, id, p.value) ==>
                  AttachedBy(after, f[id := p]) && HRow(p.value, id, 1) in after.hier)
            && (p.None? || p.value == 0 || IsBelow(f, id, p.value) ==> AttachedBy(after, f[id := None]))
  {
    hide Step, Disconnect, CrossProduct;
    MoveAttaches(db, f, id, p);
    if p.Some? {
      SubtreeIsBelow(db.hier, f, id, p.value);
      if p.value != 0 && !IsBelow(f, id, p.value) {
        assert Up(f[id := p], id, 1) == Up(f[id := p], p.value, 0) == Some(p.value);
      }
    }
  }

  lemma {:induction false} FreshClimb(f: Forest, id: Id, d: Id, g: nat)
    requires ForeignKeys(f) && id !in f
    ensures d != id ==> Up(f[id := None], d, g) == Up(f, d, g) && Up(f, d, g) != Some(id)
    decreases g
  {
    if g > 0 && d in f && f[d].Some? {
      FreshClimb(f, id, f[d].value, g - 1);
    }
  }

  lemma SelfRowAttaches(h: set<HRow>, f: Forest, id: Id)
    requires Closure(h, f) && Acyclic(f) && ForeignKeys(f) && id !in f
    ensures Closure(h + {HRow(id, id, 0)}, f[id := None])
    ensures Acyclic(f[id := None])
    ensures forall r :: r in h ==> r.ancestor != id && r.descendant != id
  {
    var grown := f[id := None];
    forall a, d, g: nat
      ensures HRow(a, d, g) in h + {HRow(id, id, 0)} <==> Up(grown, d, g) == Some(a)
    {
      FreshClimb(f, id, d, g);
    }
    forall x, g: nat | Up(grown, x, g) == Some(x)
      ensures g == 0
    {
      FreshClimb(f, id, x, g);
    }
    forall r | r in h
      ensures r.ancestor != id && r.descendant != id
    {
      assert HRow(r.ancestor, r.descendant, r.generations) in h;
      FreshClimb(f, id, r.descendant, r.generations);
    }
  }

  /** For a row without descendants the path insert is the connect. */
  lemma PathsAreCrossProduct(h: set<HRow>, id: Id, p: Id)
    requires forall r :: r in h ==> r.ancestor != id
    ensures PathsToNewChild(h + {HRow(id, id, 0)}, p, id) == CrossProduct(h + {HRow(id, id, 0)}, id, p)
  {
    var withSelf := h + {HRow(id, id, 0)};
    forall r | r in PathsToNewChild(withSelf, p, id)
      ensures r in CrossProduct(withSelf, id, p)
    {
      var super :| super in withSelf && super.descendant == p && r == HRow(super.ancestor, id, super.generations + 1);
      var sub := HRow(id, id, 0);
      assert sub in withSelf && sub.ancestor == id;
      assert r == HRow(super.ancestor, sub.descendant, super.generations + sub.generations + 1);
    }
  }

  lemma CreateAttaches(db: Db, f: Forest, id: Id, parent: Option<Id>)
    requires AttachedBy(db, f) && Accepted(db, Create(id, parent))
    ensures AttachedBy(Step(db, Create(id, parent)), f[id := CreateTarget(id, parent)])
  {
    hide Closure, Acyclic, CrossProduct;
    var rows := db.rows[id := parent];
    var self := HRow(id, id, 0);
    var withSelf := db.hier + {self};
    SelfRowAttaches(db.hier, f, id);
    InsertGoesThrough(rows, db.hier, {self});
    if NamesParent(parent) {
      var p := parent.value;
      var paths := PathsToNewChild(withSelf, p, id);
      if p == id {
        assert self in withSelf;
        assert HRow(id, id, 1) in paths && SameKey(HRow(id, id, 1), self);
      } else {
        PathsAreCrossProduct(db.hier, id, p);
        var grown := f[id := None];
        forall k: nat ensures Up(grown, p, k) != Some(id) { FreshClimb(f, id, p, k); }
        ConnectKeepsKeys(rows, withSelf, f[id := None], id, p);
        ConnectAttaches(withSelf, f[id := None], id, p);
        LinkedIsAcyclic(f[id := None], id, p);
        assert f[id := None][id := parent] == f[id := parent];
      }
    }
  }

  lemma {:induction false} LeafClimb(f: Forest, id: Id, d: Id, g: nat)
    requires forall x :: x in f ==> f[x] != Some(id)
    ensures d != id ==> Up(f - {id}, d, g) == Up(f, d, g) && Up(f, d, g) != Some(id)
    decreases g
  {
    if g > 0 && d in f && f[d].Some? {
      LeafClimb(f, id, f[d].value, g - 1);
    }
  }

  /** The table accepts the delete only if no parent_id names the row; then it is a leaf. */
  lemma DeleteAttaches(db: Db, f: Forest, id: Id)
    requires AttachedBy(db, f) && Accepted(db, Delete(id))
    ensures AttachedBy(Step(db, Delete(id)), f - {id})
  {
    var after := Step(db, Delete(id));
    assert f[id] != Some(id) by { if f[id] == Some(id) { assert Up(f, id, 1) == Some(id); } }
    forall a, d, g: nat
      ensures HRow(a, d, g) in after.hier <==> Up(f - {id}, d, g) == Some(a)
    {
      LeafClimb(f, id, d, g);
    }
    forall x, g: nat | Up(f - {id}, x, g) == Some(x)
      ensures g == 0
    {
      LeafClimb(f, id, x, g);
    }
  }

  // ---------------------------------------------------------------------------
  // Exactness
  // ---------------------------------------------------------------------------

  /** A relation is the closure of one forest only. */
  lemma OneForest(h: set<HRow>, f: Forest, e: Forest)
    requires Closure(h, f) && Closure(h, e) && ForeignKeys(f) && ForeignKeys(e)
    ensures f == e
  {
    forall x ensures x in f <==> x in e {
      assert HRow(x, x, 0) in h <==> Up(f, x, 0) == Some(x);
      assert HRow(x, x, 0) in h <==> Up(e, x, 0) == Some(x);
    }
    forall x, p | x in f && x in e ensures f[x] == Some(p) <==> e[x] == Some(p) {
      assert HRow(p, x, 1) in h <==> Up(f, x, 1) == Some(p);
      assert HRow(p, x, 1) in h <==> Up(e, x, 1) == Some(p);
    }
  }

  lemma ExactMeansNothingDetached(db: Db, f: Forest)
    requires AttachedBy(db, f)
    ensures Exact(db) <==> f == db.rows
  {
    if Exact(db) { OneForest(db.hier, f, db.rows); }
  }

  /** The condition, visible before the call, under which an operation keeps the relation exact. */
  predicate KeepsExact(db: Db, op: Op) {
    match op
    case Create(id, parent) => parent.Some? ==> parent.value != 0 && parent.value != id
    case Update(id, change) => change.SetTo? && change.parent.Some? ==>
      change.parent.value != 0 && !InSubtree(db.hier, id, change.parent.value)
    case Delete(_) => true
  }

  lemma StepAttaches(db: Db, f: Forest, op: Op) returns (f': Forest)
    requires AttachedBy(db, f) && Accepted(db, op)
    ensures AttachedBy(Step(db, op), f')
    ensures f == db.rows ==> (f' == Step(db, op).rows <==> KeepsExact(db, op))
  {
    match op
    case Create(id, parent) =>
      CreateAttaches(db, f, id, parent);
      f' := f[id := CreateTarget(id, parent)];
      assert f'[id] == CreateTarget(id, parent);
    case Update(id, change) =>
      if change.Keep? {
        f' := f;
      } else {
        MoveAttaches(db, f, id, change.parent);
        f' := f[id := MoveTarget(db.hier, id, change.parent)];
        assert f'[id] == MoveTarget(db.hier, id, change.parent);
      }
    case Delete(id) =>
      DeleteAttaches(db, f, id);
      f' := f - {id};
  }

  /** From an exact relation, an accepted operation leads to an exact relation
      if and only if its named parent is not 0, not the new row, not below the moved row. */
  lemma ExactStepIff(db: Db, op: Op)
    requires Invariant(db) && Exact(db) && Accepted(db, op)
    ensures Exact(Step(db, op)) <==> KeepsExact(db, op)
  {
    var f :| AttachedBy(db, f);
    ExactMeansNothingDetached(db, f);
    var f' := StepAttaches(db, f, op);
    ExactMeansNothingDetached(Step(db, op), f');
  }

  lemma InvariantStep(db: Db, op: Op)
    requires Invariant(db)
    ensures Invariant(Step(db, op))
  {
    if Accepted(db, op) {
      var f :| AttachedBy(db, f);
      var f' := StepAttaches(db, f, op);
    }
  }

  // ---------------------------------------------------------------------------
  // Whole runs
  // ---------------------------------------------------------------------------

  lemma EmptyIsExact()
    ensures Invariant(EMPTY) && Exact(EMPTY)
  {
    assert AttachedBy(EMPTY, map[]);
  }

  lemma {:induction false} InvariantRun(db: Db, ops: seq<Op>)
    requires Invariant(db)
    ensures Invariant(Run(db, ops))
    decreases |ops|
  {
    if ops != [] {
      InvariantStep(db, ops[0]);
      InvariantRun(Step(db, ops[0]), ops[1..]);
    }
  }

  /** Every operation of the run that the table accepts keeps the relation exact. */
  ghost predicate CleanRun(db: Db, ops: seq<Op>)
    decreases |ops|
  {
    ops == [] || ((Accepted(db, ops[0]) ==> KeepsExact(db, ops[0])) && CleanRun(Step(db, ops[0]), ops[1..]))
  }

  lemma {:induction false} ExactRun(db: Db, ops: seq<Op>)
    requires Invariant(db) && Exact(db) && CleanRun(db, ops)
    ensures Exact(Run(db, ops))
    decreases |ops|
  {
    if ops != [] {
      InvariantStep(db, ops[0]);
      if Accepted(db, ops[0]) { ExactStepIff(db, ops[0]); }
      ExactRun(Step(db, ops[0]), ops[1..]);
    }
  }

  /** A run is clean if and only if the relation is exact at every moment of it. */
  lemma {:induction false} CleanRunIff(db: Db, ops: seq<Op>)
    requires Invariant(db) && Exact(db)
    ensures CleanRun(db, ops) <==> forall n :: 0 <= n <= |ops| ==> Exact(Run(db, ops[..n]))
    decreases |ops|
  {
    if ops == [] {
      assert forall n :: 0 <= n <= |ops| ==> ops[..n] == [];
    } else {
      var next, rest := Step(db, ops[0]), ops[1..];
      InvariantStep(db, ops[0]);
      if Accepted(db, ops[0]) { ExactStepIff(db, ops[0]); }
      forall n | 0 < n <= |ops| ensures Run(db, ops[..n]) == Run(next, rest[..n - 1]) {
        assert ops[..n][1..] == rest[..n - 1];
      }
      if Exact(next) {
        CleanRunIff(next, rest);
        if forall n :: 0 <= n <= |ops| ==> Exact(Run(db, ops[..n])) {
          forall n | 0 <= n <= |rest| ensures Exact(Run(next, rest[..n])) {
            assert Exact(Run(db, ops[..n + 1]));
          }
        }
      } else {
        assert rest[..0] == [] && Run(db, ops[..1]) == next;
      }
    }
  }

  // ---------------------------------------------------------------------------
  // The relation at the end of any run
  // ---------------------------------------------------------------------------

  predicate WritesParent(op: Op, x: Id) {
    op.id == x && (op.Create? || (op.Update? && op.change.SetTo?))
  }

  /** The last accepted write of the row's parent did not meet the condition. */
  predicate Loose(ops: seq<Op>, x: Id)
    decreases |ops|
  {
    ops != [] &&
    var before, op := Run(EMPTY, ops[..|ops| - 1]), ops[|ops| - 1];
    if Accepted(before, op) && WritesParent(op, x) then !KeepsExact(before, op) else Loose(ops[..|ops| - 1], x)
  }

  /** Every row under its `parent_id`, but for the loose ones, which are roots. */
  function Attached(ops: seq<Op>): Forest {
    var rows := Run(EMPTY, ops).rows;
    map x | x in rows :: if Loose(ops, x) then None else rows[x]
  }

  lemma {:induction false} RunSnoc(db: Db, ops: seq<Op>, op: Op)
    ensures Run(db, ops + [op]) == Step(Run(db, ops), op)
    decreases |ops|
  {
    hide Step;
    if ops == [] {
      assert ops + [op] == [op] && [op][1..] == [];
    } else {
      assert (ops + [op])[1..] == ops[1..] + [op];
      RunSnoc(Step(db, ops[0]), ops[1..], op);
    }
  }

  /** Where an accepted operation hangs its row. */
  function Rehung(f: Forest, db: Db, op: Op): Forest {
    match op
    case Create(id, parent) => f[id := CreateTarget(id, parent)]
    case Update(id, change) => if change.Keep? then f else f[id := MoveTarget(db.hier, id, change.parent)]
    case Delete(id) => f - {id}
  }

  lemma LooseStep(ops: seq<Op>, op: Op, x: Id)
    ensures Loose(ops + [op], x) ==
            if Accepted(Run(EMPTY, ops), op) && WritesParent(op, x) then !KeepsExact(Run(EMPTY, ops), op)
            else Loose(ops, x)
  {
    hide Accepted, KeepsExact, Run;
    assert (ops + [op])[..|ops|] == ops;
  }

  lemma AttachedStep(ops: seq<Op>, op: Op)
    requires Accepted(Run(EMPTY, ops), op)
    ensures Attached(ops + [op]) == Rehung(Attached(ops), Run(EMPTY, ops), op)
  {
    hide Loose, Run, Disconnect, CrossProduct, InsertRows, InSubtree, PathsToNewChild;
    RunSnoc(EMPTY, ops, op);
    forall x ensures Loose(ops + [op], x) ==
                     if WritesParent(op, x) then !KeepsExact(Run(EMPTY, ops), op) else Loose(ops, x)
    {
      LooseStep(ops, op, x);
    }
  }

  /** After any run the relation is the closure of this very forest. */
  lemma {:induction false} EveryRunAttaches(ops: seq<Op>)
    ensures AttachedBy(Run(EMPTY, ops), Attached(ops))
    decreases |ops|
  {
    if ops == [] {
      EmptyIsExact();
      assert Attached([]) == map[];
    } else {
      var most, op := ops[..|ops| - 1], ops[|ops| - 1];
      assert ops == most + [op];
      EveryRunAttaches(most);
      RunSnoc(EMPTY, most, op);
      AttachedGrows(most, op);
    }
  }

  lemma AttachedGrows(ops: seq<Op>, op: Op)
    requires AttachedBy(Run(EMPTY, ops), Attached(ops))
    ensures AttachedBy(Step(Run(EMPTY, ops), op), Attached(ops + [op]))
  {
    hide AttachedBy, Run, Loose, KeepsExact;
    var db, f := Run(EMPTY, ops), Attached(ops);
    if Accepted(db, op) {
      AttachedStep(ops, op);
      match op
      case Create(id, parent) => CreateAttaches(db, f, id, parent);
      case Update(id, change) => if change.SetTo? { MoveAttaches(db, f, id, change.parent); }
      case Delete(id) => DeleteAttaches(db, f, id);
    } else {
      RefusedChangesNothing(ops, op);
    }
  }

  lemma RefusedChangesNothing(ops: seq<Op>, op: Op)
    requires !Accepted(Run(EMPTY, ops), op)
    ensures Step(Run(EMPTY, ops), op) == Run(EMPTY, ops) && Attached(ops + [op]) == Attached(ops)
  {
    RunSnoc(EMPTY, ops, op);
    forall x ensures Loose(ops + [op], x) == Loose(ops, x) { LooseStep(ops, op, x); }
  }

  /** So after any run the relation is exact if and only if the last accepted write of the parent of
      every row still there met the condition: a later good move repairs a bad one. */
  lemma ExactRunIff(ops: seq<Op>)
    ensures Exact(Run(EMPTY, ops)) <==> forall x :: x in Run(EMPTY, ops).rows ==> !Loose(ops, x)
  {
    EveryRunAttaches(ops);
    ExactMeansNothingDetached(Run(EMPTY, ops), Attached(ops));
    forall x | x in Run(EMPTY, ops).rows ensures Attached(ops)[x] == Run(EMPTY, ops).rows[x] <==> !Loose(ops, x) {
      if Loose(ops, x) { LooseNamesParent(ops, x); }
    }
  }

  /** A loose row names a parent, so it hangs elsewhere than its `parent_id` says. */
  lemma {:induction false} LooseNamesParent(ops: seq<Op>, x: Id)
    requires x in Run(EMPTY, ops).rows && Loose(ops, x)
    ensures Run(EMPTY, ops).rows[x].Some?
    decreases |ops|
  {
    var most, op := ops[..|ops| - 1], ops[|ops| - 1];
    assert ops == most + [op];
    RunSnoc(EMPTY, most, op);
    if !(Accepted(Run(EMPTY, most), op) && WritesParent(op, x)) {
      LooseNamesParent(most, x);
    }
  }

  /** Any run from the empty table keeps the invariant; the relation is exact all along if and only if
      the run is clean, and at its end if and only if no row is loose. */
  lemma EveryRun(ops: seq<Op>)
    ensures Invariant(Run(EMPTY, ops)) && AttachedBy(Run(EMPTY, ops), Attached(ops))
    ensures CleanRun(EMPTY, ops) <==> forall n :: 0 <= n <= |ops| ==> Exact(Run(EMPTY, ops[..n]))
    ensures Exact(Run(EMPTY, ops)) <==> forall x :: x in Run(EMPTY, ops).rows ==> !Loose(ops, x)
    ensures CleanRun(EMPTY, ops) ==> Exact(Run(EMPTY, ops))
  {
    EmptyIsExact();
    EveryRunAttaches(ops);
    CleanRunIff(EMPTY, ops);
    ExactRunIff(ops);
    assert ops[..|ops|] == ops;
  }

  /** Moving a root under its own child: the child's parent row goes, the cycle stays in parent_id. */
  lemma MoveUnderChildBreaksExact()
    ensures var before := Run(EMPTY, [Create(1, None), Create(2, Some(1))]);
            Exact(before) && !Exact(Step(before, Update(1, SetTo(Some(2)))))
  {
    var ops := [Create(1, None), Create(2, Some(1))];
    var one := Step(EMPTY, ops[0]);
    var before := Step(one, ops[1]);
    assert ops[1..] == [ops[1]] && ops[1..][1..] == [];
    assert Run(EMPTY, ops) == Run(one, [ops[1]]) == Run(before, []) == before;
    EveryRun(ops);
    assert HRow(1, 2, 1) in before.hier by { assert Up(before.rows, 2, 1) == Some(1); }
    ExactStepIff(before, Update(1, SetTo(Some(2))));
  }

  // ---------------------------------------------------------------------------
  // The tree queries
  // ---------------------------------------------------------------------------

  /** root, ..., parent of `x`. */
  ghost predicate Breadcrumb(f: Forest, path: seq<Id>, x: Id) {
    && x in f
    && (forall i :: 0 <= i < |path| ==> Up(f, x, |path| - i) == Some(path[i]))
    && Up(f, x, |path| + 1) == None
  }

  /** A breadcrumb is a chain of parent links from a root down to the parent of `x`. */
  lemma BreadcrumbIsPath(f: Forest, path: seq<Id>, x: Id)
    requires Breadcrumb(f, path, x) && ForeignKeys(f)
    ensures path == [] <==> f[x] == None
    ensures path != [] ==> path[0] in f && f[path[0]] == None && f[x] == Some(path[|path| - 1])
    ensures forall i :: 0 < i < |path| ==> path[i] in f && f[path[i]] == Some(path[i - 1])
  {
    forall i | 0 <= i < |path|
      ensures path[i] in f && Up(f, path[i], 1) == if i == 0 then None else Some(path[i - 1])
    {
      UpCompose(f, x, |path| - i, 1);
      UpStays(f, x, |path| - i);
    }
    if path != [] {
      assert Up(f, x, 1) == Some(path[|path| - 1]);
      assert f[x].Some? && Up(f, f[x].value, 0) == Some(f[x].value);
      UpCompose(f, x, |path|, 1);
      assert Up(f, path[0], 1) == None;
    }
  }

  predicate InGenerationOrder(answer: seq<HRow>) {
    forall i, j :: 0 <= i < j < |answer| ==> answer[i].generations >= answer[j].generations
  }

  function AncestorRows(h: set<HRow>, x: Id): set<HRow> {
    set r | r in h && r.descendant == x && r.generations > 0
  }

  /** Any answer the database may give to the GetAncestors query: each joined row once, deepest first. */
  ghost predicate AnswersAncestors(h: set<HRow>, x: Id, answer: seq<HRow>) {
    && multiset(answer) == multiset(AncestorRows(h, x))
    && InGenerationOrder(answer)
  }

  lemma AnswerRow(h: set<HRow>, f: Forest, x: Id, answer: seq<HRow>, i: nat)
    requires Closure(h, f) && AnswersAncestors(h, x, answer) && i < |answer|
    ensures answer[i].generations > 0 && Up(f, x, answer[i].generations) == Some(answer[i].ancestor)
  {
    assert answer[i] in multiset(answer);
    assert HRow(answer[i].ancestor, x, answer[i].generations) in h;
  }

  lemma AnswerHas(h: set<HRow>, f: Forest, x: Id, answer: seq<HRow>, g: nat) returns (i: nat)
    requires Closure(h, f) && AnswersAncestors(h, x, answer) && g > 0 && Up(f, x, g).Some?
    ensures i < |answer| && answer[i].generations == g
  {
    var r := HRow(Up(f, x, g).value, x, g);
    assert r in AncestorRows(h, x);
    assert r in multiset(answer);
    i :| 0 <= i < |answer| && answer[i] == r;
  }

  lemma AnswerStrict(h: set<HRow>, f: Forest, x: Id, answer: seq<HRow>, i: nat, j: nat)
    requires Closure(h, f) && AnswersAncestors(h, x, answer) && i < j < |answer|
    ensures answer[i].generations > answer[j].generations
  {
    if answer[i].generations == answer[j].generations {
      AnswerRow(h, f, x, answer, i);
      AnswerRow(h, f, x, answer, j);
      assert answer[i] in multiset(answer) && answer[j] in multiset(answer);
      AppearsTwice(answer, i, j);
    }
  }

  lemma {:induction false} UpShorter(f: Forest, x: Id, j: nat, k: nat)
    requires j <= k && Up(f, x, k).Some?
    ensures Up(f, x, j).Some?
  {
    UpCompose(f, x, j, k - j);
  }

  /** The i-th answer row is the (|answer| - i)-th ancestor, and there is no further one. */
  lemma AnswerIsBreadcrumb(h: set<HRow>, f: Forest, x: Id, answer: seq<HRow>)
    requires Closure(h, f) && x in f && AnswersAncestors(h, x, answer)
    ensures Breadcrumb(f, seq(|answer|, i requires 0 <= i < |answer| => answer[i].ancestor), x)
  {
    var n := |answer|;
    forall i: nat | i < n ensures answer[i].generations == n - i { AnswerGeneration(h, f, x, answer, i); }
    forall i: nat | i < n ensures Up(f, x, n - i) == Some(answer[i].ancestor) { AnswerRow(h, f, x, answer, i); }
    if Up(f, x, n + 1).Some? {
      var i := AnswerHas(h, f, x, answer, n + 1);
    }
  }

  lemma {:induction false} AnswerGeneration(h: set<HRow>, f: Forest, x: Id, answer: seq<HRow>, i: nat)
    requires Closure(h, f) && AnswersAncestors(h, x, answer) && i < |answer|
    ensures answer[i].generations == |answer| - i
    decreases |answer| - i
  {
    AnswerRow(h, f, x, answer, i);
    var g := answer[i].generations;
    if i + 1 < |answer| {
      AnswerGeneration(h, f, x, answer, i + 1);
      AnswerStrict(h, f, x, answer, i, i + 1);
    }
    var below := |answer| - i;
    UpShorter(f, x, below, g);
    var j := AnswerHas(h, f, x, answer, below);
    if j > i {
      AnswerStrict(h, f, x, answer, i, j);
      AnswerGeneration(h, f, x, answer, j);
    } else if j < i {
      AnswerStrict(h, f, x, answer, j, i);
    }
  }

  // ---------------------------------------------------------------------------
  // The store
  // ---------------------------------------------------------------------------

  /** One tree table and its hierarchy table, changed statement by statement. */
  class TreeTable {
    var rows: Forest
    var hier: set<HRow>

    ghost function State(): Db
      reads this
    {
      Db(rows, hier)
    }

    ghost predicate Valid()
      reads this
    {
      Invariant(State())
    }

    constructor ()
      ensures Valid() && State() == EMPTY
    {
      rows, hier := map[], {};
      new;
      EmptyIsExact();
    }

    /** Accepted unless the id is taken or the parent is missing; the row then hangs under its parent,
        or is a root if it names none, 0 or itself. */
    method Create(id: Id, parent: Option<Id>) returns (ok: bool)
      requires Valid()
      modifies this
      ensures Valid() && State() == Step(old(State()), Op.Create(id, parent))
      ensures ok <==> id !in old(rows) && (parent.None? || parent.value in old(rows) || parent.value == id)
      ensures if ok then rows == old(rows)[id := parent] else State() == old(State())
      ensures ok ==> forall f :: AttachedBy(old(State()), f) ==>
                AttachedBy(State(),
                  f[id := if parent.Some? && parent.value != 0 && parent.value != id then parent else None])
      ensures ok && old(Exact(State())) ==>
                (Exact(State()) <==> (parent.Some? ==> parent.value != 0 && parent.value != id))
    {
      ghost var before := State();
      InvariantStep(before, Op.Create(id, parent));
      if id in rows || (parent.Some? && parent.value !in rows && parent.value != id) {
        return false;
      }
      rows := rows[id := parent];
      hier := InsertRows(rows, hier, {HRow(id, id, 0)});
      if parent.Some? && parent.value != 0 {
        hier := InsertRows(rows, hier, PathsToNewChild(hier, parent.value, id));
      }
      ok := true;
      forall f | AttachedBy(before, f)
        ensures AttachedBy(State(),
                f[id := if parent.Some? && parent.value != 0 && parent.value != id then parent else None])
      {
        CreateAttaches(before, f, id, parent);
      }
      if Exact(before) { ExactStepIff(before, Op.Create(id, parent)); }
    }

    /** Accepted unless the row or the new parent is missing.  The row then hangs under the new parent,
        unless that is none, 0, the row itself or below it: then it is a root. */
    method Update(id: Id, change: ParentChange) returns (ok: bool)
      requires Valid()
      modifies this
      ensures Valid() && State() == Step(old(State()), Op.Update(id, change))
      ensures ok <==> id in old(rows) && (change.SetTo? && change.parent.Some? ==> change.parent.value in old(rows))
      ensures if ok && change.SetTo? then rows == old(rows)[id := change.parent] else State() == old(State())
      ensures ok && change.SetTo? ==> forall f :: AttachedBy(old(State()), f) ==>
                && (change.parent.Some? && change.parent.value != 0 && !IsBelow(f, id, change.parent.value) ==>
                      AttachedBy(State(), f[id := change.parent]) && HRow(change.parent.value, id, 1) in hier)
                && (change.parent.None? || change.parent.value == 0 || IsBelow(f, id, change.parent.value) ==>
                      AttachedBy(State(), f[id := None]))
      ensures ok && old(Exact(State())) ==>
        (Exact(State()) <==> (change.SetTo? && change.parent.Some? ==>
          change.parent.value != 0 && !IsBelow(old(rows), id, change.parent.value)))
    {
      ghost var before := State();
      InvariantStep(before, Op.Update(id, change));
      if id !in rows || (change.SetTo? && change.parent.Some? && change.parent.value !in rows) {
        return false;
      }
      if change.SetTo? {
        rows := rows[id := change.parent];
        MoveTreeNode(id, change.parent);
      }
      ok := true;
      forall f | change.SetTo? && AttachedBy(before, f)
        ensures var p := change.parent;
                && (p.Some? && p.value != 0 && !IsBelow(f, id, p.value) ==>
                      AttachedBy(State(), f[id := p]) && HRow(p.value, id, 1) in hier)
                && (p.None? || p.value == 0 || IsBelow(f, id, p.value) ==> AttachedBy(State(), f[id := None]))
      {
        MoveHangs(before, f, id, change.parent);
      }
      if Exact(before) {
        ExactStepIff(before, Op.Update(id, change));
        if change.SetTo? && change.parent.Some? { SubtreeIsBelow(before.hier, before.rows, id, change.parent.value); }
      }
    }

    method MoveTreeNode(id: Id, newParent: Option<Id>)
      modifies this`hier
      ensures hier == if NamesParent(newParent)
                      then InsertRows(rows, Disconnect(old(hier), id),
                        CrossProduct(Disconnect(old(hier), id), id, newParent.value))
                      else Disconnect(old(hier), id)
    {
      hier := Disconnect(hier, id);
      if newParent.Some? && newParent.value != 0 {
        hier := InsertRows(rows, hier, CrossProduct(hier, id, newParent.value));
      }
    }

    /** Accepted unless the row is missing or is another row's parent. */
    method Delete(id: Id) returns (ok: bool)
      requires Valid()
      modifies this
      ensures Valid() && State() == Step(old(State()), Op.Delete(id))
      ensures ok <==> id in old(rows) && forall x :: x in old(rows) && x != id ==> old(rows)[x] != Some(id)
      ensures if ok then rows == old(rows) - {id} else State() == old(State())
      ensures ok ==> forall f :: AttachedBy(old(State()), f) ==> AttachedBy(State(), f - {id})
      ensures old(Exact(State())) ==> Exact(State())
    {
      ghost var before := State();
      InvariantStep(before, Op.Delete(id));
      if id !in rows || Referenced(rows, id) {
        return false;
      }
      rows := rows - {id};
      hier := set r | r in hier && r.ancestor != id && r.descendant != id;
      ok := true;
      forall f | AttachedBy(before, f) ensures AttachedBy(State(), f - {id}) { DeleteAttaches(before, f, id); }
      if Exact(before) { ExactStepIff(before, Op.Delete(id)); }
    }

    /** Exactly the rows hanging directly under `id`. */
    method GetChildren(id: Id) returns (children: set<Id>)
      requires Valid()
      ensures forall f :: AttachedBy(State(), f) ==> children == set c | c in f && f[c] == Some(id)
      ensures Exact(State()) ==> children == set c | c in rows && rows[c] == Some(id)
    {
      children := set r | r in hier && r.descendant in rows && r.ancestor == id && r.generations == 1 :: r.descendant;
      forall f | AttachedBy(State(), f)
        ensures children == set c | c in f && f[c] == Some(id)
      {
        ChildRows(hier, f, id);
      }
      if Exact(State()) {
        ghost var f :| AttachedBy(State(), f);
        ExactMeansNothingDetached(State(), f);
      }
    }

    /** Exactly the path root, ..., parent of `id`. */
    method GetAncestors(id: Id) returns (path: seq<Id>)
      requires Valid()
      ensures id !in rows ==> path == []
      ensures forall f :: id in rows && AttachedBy(State(), f) ==> Breadcrumb(f, path, id)
      ensures id in rows && Exact(State()) ==> Breadcrumb(rows, path, id)
    {
      var joined := AncestorRows(hier, id);
      var answer := OrderByGenerations(joined);
      path := seq(|answer|, i requires 0 <= i < |answer| => answer[i].ancestor);
      forall f | AttachedBy(State(), f)
        ensures if id in rows then Breadcrumb(f, path, id) else path == []
      {
        if id in rows {
          AnswerIsBreadcrumb(hier, f, id, answer);
        } else if answer != [] {
          AnswerRow(hier, f, id, answer, 0);
        }
      }
      ghost var f :| AttachedBy(State(), f);
      ExactMeansNothingDetached(State(), f);
    }
  }

  lemma ChildRows(h: set<HRow>, f: Forest, id: Id)
    requires Closure(h, f) && ForeignKeys(f)
    ensures (set r | r in h && r.descendant in f && r.ancestor == id && r.generations == 1 :: r.descendant) ==
            set c | c in f && f[c] == Some(id)
  {
    var left := set r | r in h && r.descendant in f && r.ancestor == id && r.generations == 1 :: r.descendant;
    forall c | c in f
      ensures c in left <==> f[c] == Some(id)
    {
      assert Up(f, c, 1) == if f[c].None? then None else Up(f, f[c].value, 0);
      if c in left { assert HRow(id, c, 1) in h; }
      if f[c] == Some(id) {
        assert HRow(id, c, 1) in h;
      }
    }
  }

  /** ORDER BY generations DESC. */
  method OrderByGenerations(rows: set<HRow>) returns (answer: seq<HRow>)
    ensures multiset(answer) == multiset(rows) && InGenerationOrder(answer)
  {
    answer := [];
    var rest := rows;
    while rest != {}
      invariant rest <= rows
      invariant multiset(answer) == multiset(rows - rest)
      invariant InGenerationOrder(answer)
      invariant forall i, r :: 0 <= i < |answer| && r in rest ==> answer[i].generations >= r.generations
      decreases rest
    {
      var top :| top in rest;
      var others := rest - {top};
      while others != {}
        invariant top in rest && others <= rest
        invariant forall r :: r in rest - others ==> top.generations >= r.generations
        decreases others
      {
        var r :| r in others;
        if r.generations > top.generations { top := r; }
        others := others - {r};
      }
      assert rows - (rest - {top}) == (rows - rest) + {top};
      answer := answer + [top];
      rest := rest - {top};
    }
    assert rows - rest == rows;
  }
}
