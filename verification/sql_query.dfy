/** The two SQL query builders as small compilers: Postgres numbers its placeholders,
    SQLite takes its arguments by position.  A statement is a tree of clauses, not text. */
module SqlQueries {
  import opened Collections
  import opened Options
  import opened Text
  import opened MemoryStores
  import opened MemoryQueries

  /** One call on a builder that adds a condition. */
  datatype Call =
    | Where(field: string, op: string, value: Arg)
    | WhereIn(field: string, values: seq<Val>)

  predicate NameChar(c: char) {
    'a' <= c <= 'z' || 'A' <= c <= 'Z' || IsDigit(c) || c == '_'
  }

  predicate ValidName(name: string) {
    name != "" && forall i | 0 <= i < |name| :: NameChar(name[i])
  }

  const VALID_OPS := {"=", "!=", ">", "<", ">=", "<=", "LIKE", "IN"}

  // ---------------------------------------------------------------------------
  // What the engines do with one comparison
  // ---------------------------------------------------------------------------

  /** A comparison of text columns; with NULL on either side it is not true. */
  predicate Compares(op: string, cell: Val, arg: Arg, like: Like) {
    cell.Str? && arg.Scalar? && arg.v.Str? &&
    if op == "=" then cell.s == arg.v.s
    else if op == "!=" then cell.s != arg.v.s
    else if op == ">" then Less(arg.v.s, cell.s)
    else if op == "<" then Less(cell.s, arg.v.s)
    else if op == ">=" then !Less(cell.s, arg.v.s)
    else if op == "<=" then !Less(arg.v.s, cell.s)
    else ToUpper(op) == "LIKE" && like(arg.v.s, cell.s)
  }

  predicate IsOneOf(cell: Val, args: seq<Arg>) {
    cell.Str? && Scalar(cell) in args
  }

  function Scalars(values: seq<Val>): seq<Arg> {
    seq(|values|, i requires 0 <= i < |values| => Scalar(values[i]))
  }

  // ---------------------------------------------------------------------------
  // The condition a call asks for
  // ---------------------------------------------------------------------------

  datatype Condition =
    | Nothing
    | Impossible
    | Comparison(column: string, op: string, value: Arg)
    | Membership(column: string, values: seq<Val>)

  function InCondition(field: string, values: seq<Val>): Condition {
    if values == [] then Impossible
    else if !ValidName(field) then Nothing
    else Membership(ToLower(field), values)
  }

  /** Both SQL builders check the name, then the operator; an empty list is checked first of all. */
  function ConditionOf(call: Call): Condition {
    match call
    case WhereIn(field, values) => InCondition(field, values)
    case Where(field, op, value) =>
      if !ValidName(field) || ToUpper(op) !in VALID_OPS then Nothing
      else if ToUpper(op) == "IN" && value.ListOf? then InCondition(field, value.vs)
      else Comparison(ToLower(field), op, value)
  }

  function ArgsOf(c: Condition): seq<Arg> {
    match c
    case Nothing => []
    case Impossible => []
    case Comparison(_, _, value) => [value]
    case Membership(_, values) => Scalars(values)
  }

  predicate Holds(c: Condition, r: Record, like: Like) {
    match c
    case Nothing => true
    case Impossible => false
    case Comparison(column, op, value) => Compares(op, Cell(r, column), value, like)
    case Membership(column, values) => IsOneOf(Cell(r, column), Scalars(values))
  }

  // ---------------------------------------------------------------------------
  // Postgres
  // ---------------------------------------------------------------------------

  datatype PgClause =
    | PgNever
    | PgCompare(column: string, op: string, placeholder: nat)
    | PgIn(column: string, placeholders: seq<nat>)

  datatype PgQuery = PgQuery(wheres: seq<PgClause>, args: seq<Arg>)

  function PgClauses(c: Condition, done: nat): seq<PgClause> {
    match c
    case Nothing => []
    case Impossible => [PgNever]
    case Comparison(column, op, _) => [PgCompare(column, op, done + 1)]
    case Membership(column, values) => [PgIn(column, Numbers(done, |values|))]
  }

  function PgAdd(q: PgQuery, c: Condition): PgQuery {
    PgQuery(q.wheres + PgClauses(c, |q.args|), q.args + ArgsOf(c))
  }

  function PgCompile(calls: seq<Call>): PgQuery
    decreases |calls|
  {
    if calls == [] then PgQuery([], []) else PgAdd(PgCompile(calls[..|calls| - 1]), ConditionOf(calls[|calls| - 1]))
  }

  /** done + 1, ..., done + n. */
  function Numbers(done: nat, n: nat): seq<nat> {
    seq(n, i => done + 1 + i)
  }

  function PlaceholdersOf(c: PgClause): seq<nat> {
    match c
    case PgNever => []
    case PgCompare(_, _, n) => [n]
    case PgIn(_, ns) => ns
  }

  function Placeholders(cs: seq<PgClause>): seq<nat>
    decreases |cs|
  {
    if cs == [] then [] else Placeholders(cs[..|cs| - 1]) + PlaceholdersOf(cs[|cs| - 1])
  }

  function ArgAt(args: seq<Arg>, placeholder: nat): Arg {
    if 0 < placeholder <= |args| then args[placeholder - 1] else Scalar(Nil)
  }

  predicate PgHolds(c: PgClause, args: seq<Arg>, r: Record, like: Like) {
    match c
    case PgNever => false
    case PgCompare(column, op, n) => Compares(op, Cell(r, column), ArgAt(args, n), like)
    case PgIn(column, ns) =>
      IsOneOf(Cell(r, column), seq(|ns|, i requires 0 <= i < |ns| => ArgAt(args, ns[i])))
  }

  predicate PgSelects(q: PgQuery, r: Record, like: Like) {
    forall i | 0 <= i < |q.wheres| :: PgHolds(q.wheres[i], q.args, r, like)
  }

  // ---------------------------------------------------------------------------
  // SQLite
  // ---------------------------------------------------------------------------

  datatype LiteClause =
    | LiteNever
    | LiteCompare(column: string, op: string)
    | LiteIn(column: string, marks: nat)

  datatype LiteQuery = LiteQuery(wheres: seq<LiteClause>, args: seq<Arg>)

  function LiteClauses(c: Condition): seq<LiteClause> {
    match c
    case Nothing => []
    case Impossible => [LiteNever]
    case Comparison(column, op, _) => [LiteCompare(column, op)]
    case Membership(column, values) => [LiteIn(column, |values|)]
  }

  function LiteAdd(q: LiteQuery, c: Condition): LiteQuery {
    LiteQuery(q.wheres + LiteClauses(c), q.args + ArgsOf(c))
  }

  function LiteCompile(calls: seq<Call>): LiteQuery
    decreases |calls|
  {
    if calls == [] then LiteQuery([], [])
    else LiteAdd(LiteCompile(calls[..|calls| - 1]), ConditionOf(calls[|calls| - 1]))
  }

  function Marks(c: LiteClause): nat {
    match c
    case LiteNever => 0
    case LiteCompare(_, _) => 1
    case LiteIn(_, n) => n
  }

  predicate LiteHolds(c: LiteClause, mine: seq<Arg>, r: Record, like: Like) {
    match c
    case LiteNever => false
    case LiteCompare(column, op) => |mine| == 1 && Compares(op, Cell(r, column), mine[0], like)
    case LiteIn(column, _) => IsOneOf(Cell(r, column), mine)
  }

  /** The engine reads the statement left to right, each `?` taking the next argument;
      too few or too many arguments are an error, which selects nothing. */
  predicate LiteSelectsFrom(cs: seq<LiteClause>, args: seq<Arg>, r: Record, like: Like)
    decreases |cs|
  {
    if cs == [] then args == []
    else Marks(cs[0]) <= |args| && LiteHolds(cs[0], args[..Marks(cs[0])], r, like)
         && LiteSelectsFrom(cs[1..], args[Marks(cs[0])..], r, like)
  }

  predicate LiteSelects(q: LiteQuery, r: Record, like: Like) {
    LiteSelectsFrom(q.wheres, q.args, r, like)
  }

  // ---------------------------------------------------------------------------
  // The in-memory builder on the same calls
  // ---------------------------------------------------------------------------

  function FilterOf(call: Call): Filter {
    match call
    case Where(field, op, value) => Filter(field, op, value)
    case WhereIn(field, values) => Filter(field, "in", ListOf(values))
  }

  function MemCompile(calls: seq<Call>): seq<Filter>
    decreases |calls|
  {
    if calls == [] then [] else MemCompile(calls[..|calls| - 1]) + [FilterOf(calls[|calls| - 1])]
  }

  // ---------------------------------------------------------------------------
  // Placeholders
  // ---------------------------------------------------------------------------

  ghost predicate Numbered(q: PgQuery) {
    Placeholders(q.wheres) == Numbers(0, |q.args|)
  }

  lemma PgAddKeepsNumbering(q: PgQuery, c: Condition)
    requires Numbered(q)
    ensures Numbered(PgAdd(q, c))
  {
    var more := PgClauses(c, |q.args|);
    assert Numbers(0, |q.args|) + Numbers(|q.args|, |ArgsOf(c)|) == Numbers(0, |q.args| + |ArgsOf(c)|);
    if more == [] {
      assert q.wheres + more == q.wheres;
    } else {
      assert (q.wheres + more)[..|q.wheres|] == q.wheres;
      assert PlaceholdersOf(more[0]) == Numbers(|q.args|, |ArgsOf(c)|);
    }
  }

  /** Across all clauses the placeholders are $1, ..., $n in order, n being the number of arguments. */
  lemma {:induction false} PlaceholdersAreNumbered(calls: seq<Call>)
    ensures Numbered(PgCompile(calls))
    decreases |calls|
  {
    if calls != [] {
      PlaceholdersAreNumbered(calls[..|calls| - 1]);
      PgAddKeepsNumbering(PgCompile(calls[..|calls| - 1]), ConditionOf(calls[|calls| - 1]));
    }
  }

  // ---------------------------------------------------------------------------
  // The three builders agree
  // ---------------------------------------------------------------------------

  const COMPARISONS := {"=", "!=", ">", "<", ">=", "<="}

  predicate TextArg(a: Arg) {
    a.Scalar? && a.v.Str?
  }

  predicate TextValues(values: seq<Val>) {
    forall i | 0 <= i < |values| :: values[i].Str?
  }

  /** The calls on which the builders are meant to agree: valid lower-case fields, text values,
      and one of the six comparisons, membership, or an operator that none of the three knows. */
  predicate Portable(call: Call) {
    ValidName(call.field) && ToLower(call.field) == call.field &&
    match call
    case WhereIn(_, values) => TextValues(values)
    case Where(_, op, value) =>
      || (op in COMPARISONS && TextArg(value))
      || (op == "in" && value.ListOf? && TextValues(value.vs))
      || (ToUpper(op) !in VALID_OPS && op !in {"eq", "neq", "gt", "lt", "gte", "lte"})
  }

  const NULL_TEXT := "<nil>"

  /** Whether a call rejects in memory too what SQL never accepts, a NULL, which memory prints. */
  predicate NullAgrees(call: Call) {
    match call
    case WhereIn(_, values) => Str(NULL_TEXT) !in values
    case Where(_, op, value) =>
      if value.ListOf? then op == "in" ==> Str(NULL_TEXT) !in value.vs
      else value.v.Str? ==> NullRejected(op, value.v.s)
  }

  predicate NullRejected(op: string, text: string) {
    if op == "=" then text != NULL_TEXT
    else if op == "!=" then text == NULL_TEXT
    else if op == ">" then !Less(text, NULL_TEXT)
    else if op == "<" then !Less(NULL_TEXT, text)
    else if op == ">=" then Less(NULL_TEXT, text)
    else if op == "<=" then Less(text, NULL_TEXT)
    else true
  }

  /** Calls on lower-case names with text values are portable, for the six comparisons and for membership. */
  lemma PlainCallsArePortable(field: string, op: string, text: string, texts: seq<string>)
    requires field != "" && forall i :: 0 <= i < |field| ==>
             'a' <= field[i] <= 'z' || '0' <= field[i] <= '9' || field[i] == '_'
    requires op in {"=", "!=", ">", "<", ">=", "<="}
    ensures var values := seq(|texts|, i requires 0 <= i < |texts| => Str(texts[i]));
            && Portable(Where(field, op, Scalar(Str(text)))) && Portable(WhereIn(field, values))
            && Portable(Where(field, "in", ListOf(values)))
  {
    assert ToLower(field) == field;
  }

  /** A call with a bad name or an unknown operator is ignored, but for an empty WhereIn. */
  lemma BadCallIsIgnored(call: Call, q: PgQuery, l: LiteQuery)
    requires || call.field == ""
             || (exists c :: c in call.field && !('a' <= c <= 'z' || 'A' <= c <= 'Z' || '0' <= c <= '9' || c == '_'))
             || (call.Where? && ToUpper(call.op) !in {"=", "!=", ">", "<", ">=", "<=", "LIKE", "IN"})
    requires call.WhereIn? ==> call.values != []
    ensures PgAdd(q, ConditionOf(call)) == q && LiteAdd(l, ConditionOf(call)) == l
  {
    hide ToUpper;
    if c :| c in call.field && !('a' <= c <= 'z' || 'A' <= c <= 'Z' || '0' <= c <= '9' || c == '_') {
      var i :| 0 <= i < |call.field| && call.field[i] == c;
      assert !NameChar(call.field[i]);
    }
    assert ConditionOf(call) == Nothing;
    assert q.wheres + [] == q.wheres && q.args + [] == q.args && l.wheres + [] == l.wheres && l.args + [] == l.args;
  }

  predicate TextOrNull(v: Val) {
    v.Str? || v.Nil?
  }

  /** The row holds text in every field the calls name, or NULL where the call agrees on it. */
  predicate CommonRow(calls: seq<Call>, r: Record) {
    forall i | 0 <= i < |calls| :: CommonCell(calls[i], Cell(r, calls[i].field))
  }

  predicate CommonCell(call: Call, cell: Val) {
    cell.Str? || (cell.Nil? && NullAgrees(call))
  }

  predicate CallHolds(call: Call, r: Record, like: Like) {
    Passes(FilterOf(call).op, FilterOf(call), r, like)
  }

  lemma MemoryStep(calls: seq<Call>, call: Call, r: Record, like: Like)
    ensures PassesAll(MemCompile(calls + [call]), r, like) <==>
            PassesAll(MemCompile(calls), r, like) && CallHolds(call, r, like)
  {
    var fs := MemCompile(calls);
    assert (calls + [call])[..|calls|] == calls;
    assert MemCompile(calls + [call]) == fs + [FilterOf(call)];
    var all := fs + [FilterOf(call)];
    assert all[|fs|] == FilterOf(call);
    assert forall i :: 0 <= i < |fs| ==> all[i] == fs[i];
  }

  lemma OneOfScalars(cell: Val, values: seq<Val>)
    requires cell.Str? && TextValues(values)
    ensures IsOneOf(cell, Scalars(values)) <==> exists v <- values :: Show(cell) == Show(v)
  {
    if Scalar(cell) in Scalars(values) {
      var i :| 0 <= i < |values| && Scalars(values)[i] == Scalar(cell);
      assert values[i] in values;
    }
    if v :| v in values && Show(cell) == Show(v) {
      var i :| 0 <= i < |values| && values[i] == v;
      assert Scalars(values)[i] == Scalar(cell);
    }
  }

  /** The condition a portable call asks of a SQL engine is the filter of the in-memory builder,
      on text always and on NULL exactly when `NullAgrees`. */
  lemma ConditionMeansFilter(call: Call, r: Record, like: Like)
    requires Portable(call) && TextOrNull(Cell(r, call.field))
    ensures Holds(ConditionOf(call), r, like) == CallHolds(call, r, like) <==> CommonCell(call, Cell(r, call.field))
    ensures Holds(ConditionOf(call), r, like) ==> CallHolds(call, r, like)
  {
    if Cell(r, call.field).Str? { TextMeansFilter(call, r, like); } else { NullMeansFilter(call, r, like); }
  }

  lemma NullMeansFilter(call: Call, r: Record, like: Like)
    requires Portable(call) && Cell(r, call.field).Nil?
    ensures Holds(ConditionOf(call), r, like) == CallHolds(call, r, like) <==> NullAgrees(call)
    ensures Holds(ConditionOf(call), r, like) ==> CallHolds(call, r, like)
  {
    hide Less, ValidName, ShowList;
    assert ToUpper("in") == "IN" && ToUpper("like") == "LIKE";
    match call
    case WhereIn(_, values) =>
      PrintsNull(values);
    case Where(_, op, value) =>
      if op == "in" {
        PrintsNull(value.vs);
      } else if op in COMPARISONS {
        ComparisonsAreUpper(op);
      }
  }

  lemma PrintsNull(values: seq<Val>)
    requires TextValues(values)
    ensures (exists v <- values :: Show(Nil) == Show(v)) <==> Str(NULL_TEXT) in values
  {}

  lemma TextMeansFilter(call: Call, r: Record, like: Like)
    requires Portable(call) && Cell(r, call.field).Str?
    ensures Holds(ConditionOf(call), r, like) == CallHolds(call, r, like)
  {
    assert ToUpper("in") == "IN" && ToUpper("like") == "LIKE";
    match call
    case WhereIn(_, values) =>
      OneOfScalars(Cell(r, call.field), values);
    case Where(_, op, value) =>
      if op == "in" {
        OneOfScalars(Cell(r, call.field), value.vs);
      } else if op in COMPARISONS {
        ComparisonsAreUpper(op);
      }
  }

  lemma ComparisonsAreUpper(op: string)
    requires op in COMPARISONS
    ensures ToUpper(op) == op && op in VALID_OPS && op != "IN"
  {
    assert op == "=" || op == "!=" || op == ">" || op == "<" || op == ">=" || op == "<=";
  }

  lemma PgPrefix(q: PgQuery, more: seq<Arg>, r: Record, like: Like)
    requires Numbered(q)
    ensures PgSelects(PgQuery(q.wheres, q.args + more), r, like) == PgSelects(q, r, like)
  {
    forall i | 0 <= i < |q.wheres|
      ensures PgHolds(q.wheres[i], q.args + more, r, like) == PgHolds(q.wheres[i], q.args, r, like)
    {
      ClausePlaceholders(q.wheres, i);
      var c := q.wheres[i];
      if c.PgIn? {
        forall j | 0 <= j < |c.placeholders|
          ensures ArgAt(q.args + more, c.placeholders[j]) == ArgAt(q.args, c.placeholders[j])
        {
          assert c.placeholders[j] in PlaceholdersOf(c);
        }
        assert seq(|c.placeholders|, j requires 0 <= j < |c.placeholders| => ArgAt(q.args + more, c.placeholders[j]))
            == seq(|c.placeholders|, j requires 0 <= j < |c.placeholders| => ArgAt(q.args, c.placeholders[j]));
      } else if c.PgCompare? {
        assert c.placeholder in PlaceholdersOf(c);
      }
    }
  }

  lemma {:induction false} ClausePlaceholders(cs: seq<PgClause>, i: nat)
    requires i < |cs|
    ensures forall p :: p in PlaceholdersOf(cs[i]) ==> p in Placeholders(cs)
    decreases |cs|
  {
    if i < |cs| - 1 {
      ClausePlaceholders(cs[..|cs| - 1], i);
    }
  }

  /** The numbered placeholders of a new clause fetch exactly its own arguments. */
  lemma PgClauseFetches(q: PgQuery, c: Condition, r: Record, like: Like)
    requires PgClauses(c, |q.args|) != []
    ensures PgHolds(PgClauses(c, |q.args|)[0], q.args + ArgsOf(c), r, like) == Holds(c, r, like)
  {
    var args := q.args + ArgsOf(c);
    if c.Membership? {
      var ns := Numbers(|q.args|, |c.values|);
      assert seq(|ns|, i requires 0 <= i < |ns| => ArgAt(args, ns[i])) == Scalars(c.values);
    }
  }

  lemma PgStep(q: PgQuery, c: Condition, r: Record, like: Like)
    requires Numbered(q)
    ensures PgSelects(PgAdd(q, c), r, like) == (PgSelects(q, r, like) && Holds(c, r, like))
  {
    var more := PgClauses(c, |q.args|);
    PgPrefix(q, ArgsOf(c), r, like);
    if more == [] {
      assert PgAdd(q, c) == q;
    } else {
      PgClauseFetches(q, c, r, like);
      var all, args := q.wheres + more, q.args + ArgsOf(c);
      assert all[|q.wheres|] == more[0] && |all| == |q.wheres| + 1;
      assert forall i :: 0 <= i < |q.wheres| ==> all[i] == q.wheres[i];
    }
  }

  lemma {:induction false} LiteAppend(cs: seq<LiteClause>, args: seq<Arg>, c: LiteClause, mine: seq<Arg>, r: Record,
                                      like: Like)
    requires Marks(c) == |mine| && TotalMarks(cs) == |args|
    ensures LiteSelectsFrom(cs + [c], args + mine, r, like) <==>
            LiteSelectsFrom(cs, args, r, like) && LiteHolds(c, mine, r, like)
    decreases |cs|
  {
    if cs == [] {
      assert mine[..Marks(c)] == mine;
      assert cs + [c] == [c] && args + mine == mine;
    } else {
      var n := Marks(cs[0]);
      assert (cs + [c])[1..] == cs[1..] + [c];
      assert (args + mine)[..n] == args[..n] && (args + mine)[n..] == args[n..] + mine;
      LiteAppend(cs[1..], args[n..], c, mine, r, like);
    }
  }

  function TotalMarks(cs: seq<LiteClause>): nat
    decreases |cs|
  {
    if cs == [] then 0 else Marks(cs[0]) + TotalMarks(cs[1..])
  }

  lemma {:induction false} TotalMarksAppend(cs: seq<LiteClause>, c: LiteClause)
    ensures TotalMarks(cs + [c]) == TotalMarks(cs) + Marks(c)
    decreases |cs|
  {
    if cs != [] {
      assert (cs + [c])[1..] == cs[1..] + [c];
      TotalMarksAppend(cs[1..], c);
    }
  }

  lemma LiteStep(q: LiteQuery, c: Condition, r: Record, like: Like)
    requires TotalMarks(q.wheres) == |q.args|
    ensures TotalMarks(LiteAdd(q, c).wheres) == |LiteAdd(q, c).args|
    ensures LiteSelects(LiteAdd(q, c), r, like) == (LiteSelects(q, r, like) && Holds(c, r, like))
  {
    var more := LiteClauses(c);
    if more == [] {
      assert LiteAdd(q, c) == q;
    } else {
      TotalMarksAppend(q.wheres, more[0]);
      assert more == [more[0]] && Marks(more[0]) == |ArgsOf(c)|;
      LiteAppend(q.wheres, q.args, more[0], ArgsOf(c), r, like);
    }
  }

  /** Whatever the calls and the row, numbered and positional placeholders come to the same. */
  lemma {:induction false} SqlBuildersAgree(calls: seq<Call>, r: Record, like: Like)
    ensures TotalMarks(LiteCompile(calls).wheres) == |LiteCompile(calls).args|
    ensures PgSelects(PgCompile(calls), r, like) == LiteSelects(LiteCompile(calls), r, like)
    decreases |calls|
  {
    if calls != [] {
      var before, c := calls[..|calls| - 1], ConditionOf(calls[|calls| - 1]);
      SqlBuildersAgree(before, r, like);
      PlaceholdersAreNumbered(before);
      PgStep(PgCompile(before), c, r, like);
      LiteStep(LiteCompile(before), c, r, like);
    }
  }

  ghost predicate AllPortable(calls: seq<Call>) {
    forall i :: 0 <= i < |calls| ==> Portable(calls[i])
  }

  /** The row holds text or NULL in every field the calls name. */
  ghost predicate PlainRow(calls: seq<Call>, r: Record) {
    forall i :: 0 <= i < |calls| ==> TextOrNull(Cell(r, calls[i].field))
  }

  lemma MostOf(calls: seq<Call>, call: Call, r: Record)
    ensures AllPortable(calls + [call]) <==> AllPortable(calls) && Portable(call)
    ensures PlainRow(calls + [call], r) <==> PlainRow(calls, r) && TextOrNull(Cell(r, call.field))
    ensures CommonRow(calls + [call], r) <==> CommonRow(calls, r) && CommonCell(call, Cell(r, call.field))
  {
    hide Portable, CommonCell, TextOrNull;
    var all := calls + [call];
    assert all[|calls|] == call && forall i :: 0 <= i < |calls| ==> all[i] == calls[i];
  }

  /** For portable calls over rows of text and NULL, SQL selects exactly the common ones among the
      rows that memory selects. */
  lemma {:induction false} SqlSelectsCommon(calls: seq<Call>, r: Record, like: Like)
    requires AllPortable(calls) && PlainRow(calls, r)
    ensures PgSelects(PgCompile(calls), r, like) <==> PassesAll(MemCompile(calls), r, like) && CommonRow(calls, r)
    decreases |calls|
  {
    if calls != [] {
      hide PgSelects, PassesAll, Portable, CommonCell, CommonRow, CallHolds, Holds, TextOrNull, AllPortable, PlainRow;
      var before, call := calls[..|calls| - 1], calls[|calls| - 1];
      assert calls == before + [call];
      MostOf(before, call, r);
      SqlSelectsCommon(before, r, like);
      MemoryStep(before, call, r, like);
      PlaceholdersAreNumbered(before);
      PgStep(PgCompile(before), ConditionOf(call), r, like);
      ConditionMeansFilter(call, r, like);
    }
  }

  /** So the three builders agree on such a row if and only if memory rejects it or it is common. */
  lemma BuildersAgreeIff(calls: seq<Call>, r: Record, like: Like)
    requires AllPortable(calls) && PlainRow(calls, r)
    ensures PgSelects(PgCompile(calls), r, like) == LiteSelects(LiteCompile(calls), r, like)
    ensures PgSelects(PgCompile(calls), r, like) == PassesAll(MemCompile(calls), r, like) <==>
            (PassesAll(MemCompile(calls), r, like) ==> CommonRow(calls, r))
  {
    SqlBuildersAgree(calls, r, like);
    SqlSelectsCommon(calls, r, like);
  }

  /** For a single call memory rejects no row that is not common, so the condition is the cell's alone. */
  lemma OneCallAgreesIff(call: Call, r: Record, like: Like)
    requires Portable(call) && TextOrNull(Cell(r, call.field))
    ensures PgSelects(PgCompile([call]), r, like) == PassesAll(MemCompile([call]), r, like) <==>
            CommonCell(call, Cell(r, call.field))
  {
    hide PgSelects, PassesAll, Portable, CommonCell, CallHolds, Holds;
    assert [] + [call] == [call];
    MemoryStep([], call, r, like);
    PgStep(PgCompile([]), ConditionOf(call), r, like);
    ConditionMeansFilter(call, r, like);
    assert [call][..0] == [];
    NoCalls(r, like);
  }

  lemma NoCalls(r: Record, like: Like)
    ensures PgSelects(PgCompile([]), r, like) && PassesAll(MemCompile([]), r, like) && Numbered(PgCompile([]))
  {}

  /** From a table of such rows SQL takes the common ones that match: all of them if and only if
      every matching row is common. */
  lemma TablesAgree(calls: seq<Call>, t: Table, like: Like)
    requires AllPortable(calls) && forall id :: id in t ==> PlainRow(calls, t[id])
    ensures PgIds(t, calls, like) == LiteIds(t, calls, like) <= Matching(t, MemCompile(calls), like)
    ensures PgIds(t, calls, like) == Matching(t, MemCompile(calls), like) <==>
            forall id :: id in Matching(t, MemCompile(calls), like) ==> CommonRow(calls, t[id])
  {
    hide PgSelects, LiteSelects, PassesAll, CommonRow, AllPortable, PlainRow, PgCompile, LiteCompile, MemCompile;
    forall id | id in t
      ensures PgSelects(PgCompile(calls), t[id], like) == LiteSelects(LiteCompile(calls), t[id], like)
      ensures PgSelects(PgCompile(calls), t[id], like) <==>
              PassesAll(MemCompile(calls), t[id], like) && CommonRow(calls, t[id])
    {
      SqlBuildersAgree(calls, t[id], like);
      SqlSelectsCommon(calls, t[id], like);
    }
  }

  /** Where operators are written in lower case or unknown, COUNT(*) and the in-memory Count agree on
      exactly the same tables. */
  lemma CountsAgree(calls: seq<Call>, t: Table, like: Like)
    requires AllPortable(calls) && forall id :: id in t ==> PlainRow(calls, t[id])
    requires forall i :: 0 <= i < |calls| && calls[i].Where? ==> CaseFree(calls[i].op)
    ensures |PgIds(t, calls, like)| == |LiteIds(t, calls, like)|
    ensures |PgIds(t, calls, like)| == |Counted(t, MemCompile(calls), like)| <==>
            forall id :: id in Matching(t, MemCompile(calls), like) ==> CommonRow(calls, t[id])
  {
    hide PgIds, LiteIds, Matching, Counted, CommonRow, AllPortable, PlainRow, MemCompile, CaseFree;
    TablesAgree(calls, t, like);
    FoldedFilters(calls);
    CountAgrees(t, MemCompile(calls), like);
    SubsetSize(PgIds(t, calls, like), Matching(t, MemCompile(calls), like));
  }

  lemma FoldedFilters(calls: seq<Call>)
    requires forall i :: 0 <= i < |calls| && calls[i].Where? ==> CaseFree(calls[i].op)
    ensures forall i :: 0 <= i < |MemCompile(calls)| ==> CaseFree(MemCompile(calls)[i].op)
  {
    FiltersAre(calls);
    assert ToLower("in") == "in";
  }

  lemma {:induction false} FiltersAre(calls: seq<Call>)
    ensures |MemCompile(calls)| == |calls|
    ensures forall i :: 0 <= i < |calls| ==> MemCompile(calls)[i] == FilterOf(calls[i])
    decreases |calls|
  {
    if calls != [] { FiltersAre(calls[..|calls| - 1]); }
  }

  function PgIds(t: Table, calls: seq<Call>, like: Like): set<string> {
    set id | id in t && PgSelects(PgCompile(calls), t[id], like)
  }

  function LiteIds(t: Table, calls: seq<Call>, like: Like): set<string> {
    set id | id in t && LiteSelects(LiteCompile(calls), t[id], like)
  }

  /** An empty WhereIn selects nothing, in all three and whatever the other calls are. */
  lemma EmptyInSelectsNothing(calls: seq<Call>, i: nat, r: Record, like: Like)
    requires i < |calls| && calls[i].WhereIn? && calls[i].values == []
    ensures !PassesAll(MemCompile(calls), r, like)
    ensures !PgSelects(PgCompile(calls), r, like)
    ensures !LiteSelects(LiteCompile(calls), r, like)
  {
    EmptyInIsThere(calls, i);
    var mem, pg, lite := MemCompile(calls), PgCompile(calls), LiteCompile(calls);
    var k :| 0 <= k < |mem| && mem[k] == FilterOf(calls[i]);
    assert !Passes(mem[k].op, mem[k], r, like);
    var j :| 0 <= j < |pg.wheres| && pg.wheres[j] == PgNever;
    assert !PgHolds(pg.wheres[j], pg.args, r, like);
    LiteNeverFails(lite.wheres, lite.args, r, like);
  }

  lemma {:induction false} EmptyInIsThere(calls: seq<Call>, i: nat)
    requires i < |calls| && calls[i].WhereIn? && calls[i].values == []
    ensures FilterOf(calls[i]) in MemCompile(calls)
    ensures PgNever in PgCompile(calls).wheres
    ensures LiteNever in LiteCompile(calls).wheres
    decreases |calls|
  {
    if i < |calls| - 1 {
      EmptyInIsThere(calls[..|calls| - 1], i);
    }
  }

  lemma {:induction false} LiteNeverFails(cs: seq<LiteClause>, args: seq<Arg>, r: Record, like: Like)
    requires LiteNever in cs
    ensures !LiteSelectsFrom(cs, args, r, like)
    decreases |cs|
  {
    if cs[0] != LiteNever && Marks(cs[0]) <= |args| {
      LiteNeverFails(cs[1..], args[Marks(cs[0])..], r, like);
    }
  }

  // ---------------------------------------------------------------------------
  // The builder objects
  // ---------------------------------------------------------------------------

  datatype Order = Order(column: string, desc: bool)

  /** What the Postgres driver is given: LIMIT and OFFSET name placeholders too. */
  datatype PgStatement = PgStatement(wheres: seq<PgClause>, order: Option<Order>,
                                     limitAt: Option<nat>, offsetAt: Option<nat>, args: seq<Arg>)

  function OptionToSeq<T>(o: Option<T>): seq<T> {
    if o.Some? then [o.value] else []
  }

  function StatementPlaceholders(st: PgStatement): seq<nat> {
    Placeholders(st.wheres) + OptionToSeq(st.limitAt) + OptionToSeq(st.offsetAt)
  }

  function Number(n: int): Arg {
    Scalar(Other(IntText(n)))
  }

  class PostgresQueryBuilder {
    var wheres: seq<PgClause>
    var args: seq<Arg>
    var order: Option<Order>
    var limit: int
    var offset: int

    ghost function Query(): PgQuery
      reads this
    {
      PgQuery(wheres, args)
    }

    ghost predicate Valid()
      reads this
    {
      Numbered(Query())
    }

    constructor ()
      ensures Valid() && Query() == PgCompile([]) && order == None && limit == 0 && offset == 0
    {
      wheres, args, order, limit, offset := [], [], None, 0, 0;
    }

    method Where(field: string, op: string, value: Arg)
      requires Valid()
      modifies this`wheres, this`args
      ensures Valid() && Query() == PgAdd(old(Query()), ConditionOf(Call.Where(field, op, value)))
    {
      PgAddKeepsNumbering(Query(), ConditionOf(Call.Where(field, op, value)));
      if !ValidName(field) {
        return;
      }
      var opUpper := ToUpper(op);
      if opUpper !in VALID_OPS {
        return;
      }
      if opUpper == "IN" && value.ListOf? {
        WhereIn(field, value.vs);
        return;
      }
      args := args + [value];
      wheres := wheres + [PgCompare(ToLower(field), op, |args|)];
    }

    method WhereIn(field: string, values: seq<Val>)
      requires Valid()
      modifies this`wheres, this`args
      ensures Valid() && Query() == PgAdd(old(Query()), ConditionOf(Call.WhereIn(field, values)))
    {
      PgAddKeepsNumbering(Query(), ConditionOf(Call.WhereIn(field, values)));
      if values == [] {
        wheres := wheres + [PgNever];
        return;
      }
      if !ValidName(field) {
        assert PgAdd(Query(), Nothing) == Query();
        return;
      }
      var placeholders := AppendArgs(values);
      wheres := wheres + [PgIn(ToLower(field), placeholders)];
    }

    /** The placeholder loop of WhereIn. */
    method AppendArgs(values: seq<Val>) returns (placeholders: seq<nat>)
      modifies this`args
      ensures args == old(args) + Scalars(values)
      ensures placeholders == Numbers(|old(args)|, |values|)
    {
      placeholders := [];
      ghost var start := args;
      for i := 0 to |values|
        invariant args == start + Scalars(values[..i])
        invariant placeholders == Numbers(|start|, i)
      {
        args := args + [Scalar(values[i])];
        placeholders := placeholders + [|args|];
      }
      assert values[..|values|] == values;
    }

    method OrderBy(field: string, desc: bool)
      modifies this`order
      ensures order == if ValidName(field) then Some(Order(ToLower(field), desc)) else old(order)
    {
      if ValidName(field) {
        order := Some(Order(ToLower(field), desc));
      }
    }

    method Limit(n: int)
      modifies this`limit
      ensures limit == n
    {
      limit := n;
    }

    method Offset(n: int)
      modifies this`offset
      ensures offset == n
    {
      offset := n;
    }

    /** The statement of Execute: its placeholders are $1, ..., $n, LIMIT and OFFSET included,
        and each stands for its own argument. */
    method Statement() returns (st: PgStatement)
      requires Valid()
      ensures st.wheres == wheres && st.order == order && |args| <= |st.args| && st.args[..|args|] == args
      ensures StatementPlaceholders(st) == Numbers(0, |st.args|)
      ensures st.limitAt.Some? <==> limit > 0
      ensures st.limitAt.Some? ==> ArgAt(st.args, st.limitAt.value) == Number(limit)
      ensures st.offsetAt.Some? <==> offset > 0
      ensures st.offsetAt.Some? ==> ArgAt(st.args, st.offsetAt.value) == Number(offset)
    {
      st := PgStatement(wheres, order, None, None, args);
      var argNum := |args| + 1;
      assert StatementPlaceholders(st) == Placeholders(wheres);
      if limit > 0 {
        st := st.(limitAt := Some(argNum), args := st.args + [Number(limit)]);
        argNum := argNum + 1;
      }
      if offset > 0 {
        st := st.(offsetAt := Some(argNum), args := st.args + [Number(offset)]);
        argNum := argNum + 1;
      }
    }
  }

  class SqliteQueryBuilder {
    var wheres: seq<LiteClause>
    var args: seq<Arg>

    ghost function Query(): LiteQuery
      reads this
    {
      LiteQuery(wheres, args)
    }

    constructor ()
      ensures Query() == LiteCompile([])
    {
      wheres, args := [], [];
    }

    method Where(field: string, op: string, value: Arg)
      modifies this
      ensures Query() == LiteAdd(old(Query()), ConditionOf(Call.Where(field, op, value)))
    {
      if !ValidName(field) {
        return;
      }
      var opUpper := ToUpper(op);
      if opUpper !in VALID_OPS {
        return;
      }
      if opUpper == "IN" && value.ListOf? {
        WhereIn(field, value.vs);
        return;
      }
      args := args + [value];
      wheres := wheres + [LiteCompare(ToLower(field), op)];
    }

    method WhereIn(field: string, values: seq<Val>)
      modifies this
      ensures Query() == LiteAdd(old(Query()), ConditionOf(Call.WhereIn(field, values)))
    {
      if values == [] {
        wheres := wheres + [LiteNever];
        return;
      }
      if !ValidName(field) {
        return;
      }
      for i := 0 to |values|
        invariant wheres == old(wheres) && args == old(args) + Scalars(values[..i])
      {
        args := args + [Scalar(values[i])];
      }
      assert values[..|values|] == values;
      wheres := wheres + [LiteIn(ToLower(field), |values|)];
    }
  }
}
