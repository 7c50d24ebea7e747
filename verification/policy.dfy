/** The declarative access policy evaluator. */
module Policies {
  import opened Options
  import opened Text

  /** A rule as it comes from a manifest: any value at all. */
  datatype Rule =
    | Null
    | Name(name: string)
    | Items(items: seq<Rule>)
    | Fields(fields: map<string, Rule>)
    | Scalar(shown: string)

  datatype Claim = Text(s: string) | Texts(all: seq<string>) | Other(shown: string)

  type Claims = map<string, Claim>
  type Row = map<string, Claim>

  /** `None` is a nil map. */
  type MaybeClaims = Option<Claims>

  function Spaced(all: seq<string>): string {
    if all == [] then "" else if |all| == 1 then all[0] else all[0] + " " + Spaced(all[1..])
  }

  function ShowClaim(m: map<string, Claim>, key: string): string {
    if key !in m then "<nil>" else
    match m[key]
    case Text(s) => s
    case Texts(all) => "[" + Spaced(all) + "]"
    case Other(shown) => shown
  }

  /** The claim's text; empty when it is missing or not text. */
  function TextClaim(m: map<string, Claim>, key: string): string {
    if key in m && m[key].Text? then m[key].s else ""
  }

  predicate IsAdmin(c: MaybeClaims) {
    c.Some? && (var role := ToLower(TrimSpace(TextClaim(c.value, "role"))); role == "admin" || role == "administrator")
  }

  const ENTITLED := "entitled:"

  predicate Owns(c: Claims, r: Row) {
    var user := ShowClaim(c, "sub");
    user != "" && (user == ShowClaim(r, "created_by") || user == ShowClaim(r, "id"))
  }

  predicate Entitled(c: Claims, slug: string) {
    "entitlements" in c && c["entitlements"].Texts? && exists e <- c["entitlements"].all :: ToLower(e) == ToLower(slug)
  }

  /** A normalized (lower-case, trimmed) name. */
  predicate NameGrants(rule: string, c: MaybeClaims, r: Option<Row>) {
    if rule == "public" then true
    else if rule == "authenticated" then c.Some?
    else if rule == "owner" then IsAdmin(c) || (c.Some? && r.Some? && Owns(c.value, r.value))
    else if rule == "admin" || rule == "administrator" then c.Some? && ToLower(TextClaim(c.value, "role")) == "admin"
    else if ENTITLED <= rule then IsAdmin(c) || (c.Some? && Entitled(c.value, rule[|ENTITLED|..]))
    else c.Some? && (IsAdmin(c) || ToLower(TextClaim(c.value, "role")) == rule)
  }

  function Normal(name: string): string {
    ToLower(TrimSpace(name))
  }

  predicate HasList(m: map<string, Rule>, key: string) {
    key in m && m[key].Items?
  }

  predicate Evaluate(rule: Rule, c: MaybeClaims, r: Option<Row>)
    decreases rule
  {
    match rule
    case Null => false
    case Scalar(_) => false
    case Name(name) => NameGrants(Normal(name), c, r)
    case Items(items) => exists i | 0 <= i < |items| :: Evaluate(items[i], c, r)
    case Fields(m) =>
      if HasList(m, "and") then forall i | 0 <= i < |m["and"].items| :: Evaluate(m["and"].items[i], c, r)
      else if HasList(m, "or") then exists i | 0 <= i < |m["or"].items| :: Evaluate(m["or"].items[i], c, r)
      else if "unless" in m then !Evaluate(m["unless"], c, r)
      else false
  }

  // ---------------------------------------------------------------------------
  // What rules mean
  // ---------------------------------------------------------------------------

  /** A list grants when some member does; "and" when all do, "or" when some does, "unless" when its rule
      does not, the first of these that is there deciding; nothing else grants. */
  lemma RulesMean(rule: Rule, c: MaybeClaims, r: Option<Row>)
    ensures rule.Null? || rule.Scalar? ==> !Evaluate(rule, c, r)
    ensures rule.Items? ==> (Evaluate(rule, c, r) <==> exists x :: x in rule.items && Evaluate(x, c, r))
    ensures rule.Fields? && HasList(rule.fields, "and") ==>
              (Evaluate(rule, c, r) <==> forall x :: x in rule.fields["and"].items ==> Evaluate(x, c, r))
    ensures rule.Fields? && !HasList(rule.fields, "and") && HasList(rule.fields, "or") ==>
              (Evaluate(rule, c, r) <==> exists x :: x in rule.fields["or"].items && Evaluate(x, c, r))
    ensures rule.Fields? && !HasList(rule.fields, "and") && !HasList(rule.fields, "or") ==>
              (Evaluate(rule, c, r) <==> "unless" in rule.fields && !Evaluate(rule.fields["unless"], c, r))
  {
    hide NameGrants;
    match rule
    case Items(items) => Members(items, c, r);
    case Fields(m) =>
      if HasList(m, "and") {
        Members(m["and"].items, c, r);
      } else if HasList(m, "or") {
        Members(m["or"].items, c, r);
      }
    case _ =>
  }

  lemma Members(items: seq<Rule>, c: MaybeClaims, r: Option<Row>)
    ensures (exists i | 0 <= i < |items| :: Evaluate(items[i], c, r)) <==> exists x :: x in items && Evaluate(x, c, r)
    ensures (forall i | 0 <= i < |items| :: Evaluate(items[i], c, r)) <==> forall x :: x in items ==> Evaluate(x, c, r)
  {
    hide Evaluate;
    if x :| x in items && Evaluate(x, c, r) {
      var i :| 0 <= i < |items| && items[i] == x;
    }
  }

  /** Signed in, with a role that is neither admin nor administrator. */
  predicate IsPlain(c: MaybeClaims) {
    c.Some? && ToLower(TrimSpace(TextClaim(c.value, "role"))) !in {"admin", "administrator"}
  }

  /** What each name grants a plain user: to the public and to the signed-in always, to admins never, to the
      owner by the printed subject, to the entitled by entitlement, and otherwise to the role of that name. */
  lemma PlainUserIs(name: string, c: Claims, r: Option<Row>)
    requires IsPlain(Some(c))
    ensures var rule, sub, grants := Normal(name), ShowClaim(c, "sub"), NameGrants(Normal(name), Some(c), r);
            && (rule == "public" || rule == "authenticated" ==> grants)
            && (rule == "admin" || rule == "administrator" ==> !grants)
            && (rule == "owner" ==>
                  (grants <==> (r.Some? && sub != ""
                                && sub in {ShowClaim(r.value, "created_by"), ShowClaim(r.value, "id")})))
            && ("entitled:" <= rule ==>
                  (grants <==> ("entitlements" in c && c["entitlements"].Texts?
                                && exists e :: e in c["entitlements"].all && ToLower(e) == ToLower(rule[9..]))))
            && (rule !in {"public", "authenticated", "owner", "admin", "administrator"} && !("entitled:" <= rule) ==>
                  (grants <==> ToLower(TextClaim(c, "role")) == rule))
  {
    hide ToLower, TrimSpace, ShowClaim;
    var rule := Normal(name);
    if "entitled:" <= rule {
      assert rule[0] == "entitled:"[0] == 'e';
      assert rule !in {"public", "authenticated", "owner", "admin", "administrator"};
      assert NameGrants(rule, Some(c), r) == Entitled(c, rule[9..]);
      assert Entitled(c, rule[9..]) <==> "entitlements" in c && c["entitlements"].Texts? &&
                                          exists e :: e in c["entitlements"].all && ToLower(e) == ToLower(rule[9..]);
    }
    RoleIsTrimmed(TextClaim(c, "role"));
  }

  /** A role that folds to "admin" has no blanks around it, so it is admin in both of the code's tests. */
  lemma RoleIsTrimmed(role: string)
    ensures ToLower(role) == "admin" ==> ToLower(TrimSpace(role)) == "admin"
  {
    if ToLower(role) == "admin" { TrimAdmin(role); }
  }

  /** Without claims only the public is granted; "administrator", up to case and blanks, is granted all but "admin"
      and "administrator". */
  lemma OthersAre(name: string, c: Claims, r: Option<Row>)
    requires ToLower(TrimSpace(TextClaim(c, "role"))) == "administrator"
    ensures NameGrants(Normal(name), None, r) <==> Normal(name) == "public"
    ensures NameGrants(Normal(name), Some(c), r) <==> Normal(name) != "admin" && Normal(name) != "administrator"
  {
    hide ToLower, TrimSpace;
    RoleIsTrimmed(TextClaim(c, "role"));
  }

  // ---------------------------------------------------------------------------
  // Polarity
  // ---------------------------------------------------------------------------

  /** Every name the evaluation can reach lies under an even (`up`) or an odd number of
      `unless`.  "public" and what always fails may lie anywhere. */
  predicate Polar(rule: Rule, up: bool)
    decreases rule
  {
    match rule
    case Null => true
    case Scalar(_) => true
    case Name(name) => up || Normal(name) == "public"
    case Items(items) => forall i | 0 <= i < |items| :: Polar(items[i], up)
    case Fields(m) =>
      if HasList(m, "and") then forall i | 0 <= i < |m["and"].items| :: Polar(m["and"].items[i], up)
      else if HasList(m, "or") then forall i | 0 <= i < |m["or"].items| :: Polar(m["or"].items[i], up)
      else if "unless" in m then Polar(m["unless"], !up)
      else true
  }

  /** On these rows every name that grants to `c` grants to `d`. */
  ghost predicate BelowAt(c: MaybeClaims, d: MaybeClaims, r: Option<Row>, r': Option<Row>) {
    forall name :: NameGrants(Normal(name), c, r) ==> NameGrants(Normal(name), d, r')
  }

  /** The rule gives `d` what it gives `c`; for a reversed polarity the other way. */
  predicate Follows(rule: Rule, up: bool, c: MaybeClaims, d: MaybeClaims, r: Option<Row>, r': Option<Row>) {
    && (up ==> Evaluate(rule, c, r) ==> Evaluate(rule, d, r'))
    && (!up ==> Evaluate(rule, d, r') ==> Evaluate(rule, c, r))
  }

  lemma NameFollows(name: string, up: bool, c: MaybeClaims, d: MaybeClaims, r: Option<Row>, r': Option<Row>)
    requires Polar(Name(name), up) && BelowAt(c, d, r, r')
    ensures Follows(Name(name), up, c, d, r, r')
  {}

  lemma ItemsFollow(items: seq<Rule>, up: bool, c: MaybeClaims, d: MaybeClaims, r: Option<Row>, r': Option<Row>)
    requires forall i :: 0 <= i < |items| ==> Follows(items[i], up, c, d, r, r')
    ensures Follows(Items(items), up, c, d, r, r')
    ensures up ==> (forall i :: 0 <= i < |items| ==> Evaluate(items[i], c, r))
                   ==> forall i :: 0 <= i < |items| ==> Evaluate(items[i], d, r')
    ensures !up ==> (forall i :: 0 <= i < |items| ==> Evaluate(items[i], d, r'))
                    ==> forall i :: 0 <= i < |items| ==> Evaluate(items[i], c, r)
  {
    hide NameGrants;
  }

  lemma AndFollows(m: map<string, Rule>, up: bool, c: MaybeClaims, d: MaybeClaims, r: Option<Row>, r': Option<Row>)
    requires HasList(m, "and")
    requires forall i :: 0 <= i < |m["and"].items| ==> Follows(m["and"].items[i], up, c, d, r, r')
    ensures Follows(Fields(m), up, c, d, r, r')
  {
    hide NameGrants;
    ItemsFollow(m["and"].items, up, c, d, r, r');
  }

  lemma OrFollows(m: map<string, Rule>, up: bool, c: MaybeClaims, d: MaybeClaims, r: Option<Row>, r': Option<Row>)
    requires !HasList(m, "and") && HasList(m, "or")
    requires Follows(m["or"], up, c, d, r, r')
    ensures Follows(Fields(m), up, c, d, r, r')
  {
    hide NameGrants;
    assert forall e, row :: Evaluate(Fields(m), e, row) == Evaluate(m["or"], e, row);
  }

  lemma UnlessFollows(m: map<string, Rule>, up: bool, c: MaybeClaims, d: MaybeClaims, r: Option<Row>, r': Option<Row>)
    requires !HasList(m, "and") && !HasList(m, "or")
    requires "unless" in m ==> Follows(m["unless"], !up, c, d, r, r')
    ensures Follows(Fields(m), up, c, d, r, r')
  {
    hide NameGrants;
  }

  lemma {:induction false} PolarityDecides(rule: Rule, up: bool, c: MaybeClaims, d: MaybeClaims, r: Option<Row>,
                                           r': Option<Row>)
    requires Polar(rule, up) && BelowAt(c, d, r, r')
    ensures Follows(rule, up, c, d, r, r')
    decreases rule
  {
    hide NameGrants, BelowAt, Follows;
    match rule
    case Null => NothingFollows(rule, up, c, d, r, r');
    case Scalar(_) => NothingFollows(rule, up, c, d, r, r');
    case Name(name) => NameFollows(name, up, c, d, r, r');
    case Items(items) =>
      forall i | 0 <= i < |items| ensures Follows(items[i], up, c, d, r, r') {
        PolarityDecides(items[i], up, c, d, r, r');
      }
      ItemsFollow(items, up, c, d, r, r');
    case Fields(m) =>
      if HasList(m, "and") {
        var items := m["and"].items;
        forall i | 0 <= i < |items| ensures Follows(items[i], up, c, d, r, r') {
          PolarityDecides(items[i], up, c, d, r, r');
        }
        AndFollows(m, up, c, d, r, r');
      } else if HasList(m, "or") {
        PolarityDecides(m["or"], up, c, d, r, r');
        OrFollows(m, up, c, d, r, r');
      } else {
        if "unless" in m { PolarityDecides(m["unless"], !up, c, d, r, r'); }
        UnlessFollows(m, up, c, d, r, r');
      }
  }

  lemma NothingFollows(rule: Rule, up: bool, c: MaybeClaims, d: MaybeClaims, r: Option<Row>, r': Option<Row>)
    requires rule.Null? || rule.Scalar?
    ensures Follows(rule, up, c, d, r, r')
  {}

  /** The condition is exact: claims that every rule without `unless` follows are those that every name follows. */
  lemma BelowIff(c: MaybeClaims, d: MaybeClaims, r: Option<Row>, r': Option<Row>)
    ensures BelowAt(c, d, r, r') <==> forall rule :: Polar(rule, true) ==> Follows(rule, true, c, d, r, r')
  {
    if BelowAt(c, d, r, r') {
      forall rule | Polar(rule, true) ensures Follows(rule, true, c, d, r, r') {
        PolarityDecides(rule, true, c, d, r, r');
      }
    } else {
      var name :| NameGrants(Normal(name), c, r) && !NameGrants(Normal(name), d, r');
      assert Polar(Name(name), true) && !Follows(Name(name), true, c, d, r, r');
    }
  }

  // ---------------------------------------------------------------------------
  // Stronger claims
  // ---------------------------------------------------------------------------

  /** What no claims are granted all are, on whatever row. */
  lemma NilIsBelowAll(c: MaybeClaims, r: Option<Row>, r': Option<Row>)
    ensures BelowAt(None, c, r, r')
  {}

  function Entitlements(c: Claims): set<string> {
    if "entitlements" in c && c["entitlements"].Texts? then set e | e in c["entitlements"].all :: ToLower(e) else {}
  }

  /** The same user in the same role, with at least the same entitlements. */
  ghost predicate Extends(c: Claims, d: Claims) {
    && TextClaim(d, "role") == TextClaim(c, "role")
    && ShowClaim(d, "sub") == ShowClaim(c, "sub")
    && Entitlements(c) <= Entitlements(d)
  }

  lemma EntitledIff(c: Claims, slug: string)
    ensures Entitled(c, slug) <==> ToLower(slug) in Entitlements(c)
  {}

  lemma ExtendedIsAbove(c: Claims, d: Claims, r: Option<Row>)
    requires Extends(c, d)
    ensures BelowAt(Some(c), Some(d), r, r)
  {
    forall name | NameGrants(Normal(name), Some(c), r) ensures NameGrants(Normal(name), Some(d), r) {
      hide Entitlements, ToLower, TrimSpace, Entitled;
      var rule := Normal(name);
      if ENTITLED <= rule {
        EntitledIff(c, rule[|ENTITLED|..]);
        EntitledIff(d, rule[|ENTITLED|..]);
      }
    }
  }

  /** On one row, more entitlements take nothing away without `unless`, and give nothing under one. */
  lemma EntitlingIsMonotone(rule: Rule, up: bool, c: Claims, d: Claims, r: Option<Row>)
    requires Polar(rule, up) && Extends(c, d)
    ensures up ==> Evaluate(rule, Some(c), r) ==> Evaluate(rule, Some(d), r)
    ensures !up ==> Evaluate(rule, Some(d), r) ==> Evaluate(rule, Some(c), r)
  {
    ExtendedIsAbove(c, d, r);
    PolarityDecides(rule, up, Some(c), Some(d), r, r);
  }

  /** The role that every name grants to, whatever the resource, is exactly "admin" up to case;
      "administrator" is not enough. */
  lemma AdminIsOnTop(c: Claims)
    ensures (forall name, r :: NameGrants(name, Some(c), r)) <==> ToLower(TextClaim(c, "role")) == "admin"
  {
    var role := TextClaim(c, "role");
    if ToLower(role) == "admin" {
      TrimAdmin(role);
    } else {
      assert !NameGrants("admin", Some(c), None);
    }
  }

  lemma TrimAdmin(role: string)
    requires ToLower(role) == "admin"
    ensures TrimSpace(role) == role
  {
    assert |role| == 5 && ToLower(role)[0] == 'a' && ToLower(role)[4] == 'n';
    assert !IsBlank(role[0]) && !IsBlank(role[4]);
  }

  /** Without `unless`, what no claims are granted every claim is granted, and what any claims are
      granted the role admin is granted, whatever the resources; one enclosing `unless` reverses it. */
  lemma AccessIsMonotone(rule: Rule, up: bool, any: Claims, admin: Claims, r: Option<Row>, r': Option<Row>)
    requires Polar(rule, up) && ToLower(TextClaim(admin, "role")) == "admin"
    ensures up ==> (Evaluate(rule, None, r) ==> Evaluate(rule, Some(any), r'))
                   && (Evaluate(rule, Some(any), r) ==> Evaluate(rule, Some(admin), r'))
    ensures !up ==> (Evaluate(rule, Some(admin), r) ==> Evaluate(rule, Some(any), r'))
                    && (Evaluate(rule, Some(any), r) ==> Evaluate(rule, None, r'))
  {
    var (before, after) := if up then (r, r') else (r', r);
    NilIsBelowAll(Some(any), before, after);
    AdminIsOnTop(admin);
    PolarityDecides(rule, up, None, Some(any), before, after);
    PolarityDecides(rule, up, Some(any), Some(admin), before, after);
  }

  function Both(a: Rule, b: Rule): Rule {
    Fields(map["and" := Items([a, b])])
  }

  lemma EvaluateBoth(a: Rule, b: Rule, c: MaybeClaims, r: Option<Row>)
    ensures Evaluate(Both(a, b), c, r) == (Evaluate(a, c, r) && Evaluate(b, c, r))
  {
    var items := Both(a, b).fields["and"].items;
    assert items[0] == a && items[1] == b;
  }

  lemma PolarBoth(a: Rule, b: Rule, up: bool)
    ensures Polar(Both(a, b), up) == (Polar(a, up) && Polar(b, up))
  {
    var items := Both(a, b).fields["and"].items;
    assert items[0] == a && items[1] == b;
  }

  function Unless(rule: Rule): Rule {
    Fields(map["unless" := rule])
  }

  /** A rule of both polarities can grant a signed-in user what neither a stranger nor an admin gets. */
  lemma MixedPolarityIsNotMonotone(admin: Claims)
    requires ToLower(TextClaim(admin, "role")) == "admin"
    ensures var rule := Both(Name("authenticated"), Unless(Name("admin")));
            && !Polar(rule, true) && !Polar(rule, false)
            && !Evaluate(rule, None, None) && Evaluate(rule, Some(map[]), None) && !Evaluate(rule, Some(admin), None)
  {
    hide *;
    MixedIsNotPolar();
    MixedMeans(None);
    MixedMeans(Some(map[]));
    MixedMeans(Some(admin));
    NoRole();
  }

  lemma NoRole()
    ensures ToLower(TextClaim(map[], "role")) == ""
  {}

  lemma MixedIsNotPolar()
    ensures var rule := Both(Name("authenticated"), Unless(Name("admin")));
            !Polar(rule, true) && !Polar(rule, false)
  {
    NormalPlain();
    PolarBoth(Name("authenticated"), Unless(Name("admin")), true);
    PolarBoth(Name("authenticated"), Unless(Name("admin")), false);
  }

  lemma MixedMeans(c: MaybeClaims)
    ensures Evaluate(Both(Name("authenticated"), Unless(Name("admin"))), c, None) ==
            (c.Some? && ToLower(TextClaim(c.value, "role")) != "admin")
  {
    NormalPlain();
    EvaluateBoth(Name("authenticated"), Unless(Name("admin")), c, None);
  }

  lemma NormalPlain()
    ensures Normal("authenticated") == "authenticated" && Normal("admin") == "admin"
  {
    assert TrimSpace("authenticated") == "authenticated" && TrimSpace("admin") == "admin";
    assert ToLower("authenticated") == "authenticated" && ToLower("admin") == "admin";
  }
}
