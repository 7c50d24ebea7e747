/** Weighted and percentage rollouts over 100000 buckets. */
module Rollouts {
  import opened Options
  import opened Text

  const BUCKETS := 100000
  const TWO32 := 0x1_0000_0000

  datatype WeightedVariation = WeightedVariation(variation: int, weight: int)

  // ---------------------------------------------------------------------------
  // Selection
  // ---------------------------------------------------------------------------

  function Cumulative(ws: seq<WeightedVariation>, k: nat): int
    requires k <= |ws|
  {
    if k == 0 then 0 else Cumulative(ws, k - 1) + ws[k - 1].weight
  }

  /** How far the first `k` entries reach: the largest cumulative weight so far, at least 0. */
  function Reach(ws: seq<WeightedVariation>, k: nat): nat
    requires k <= |ws|
  {
    if k == 0 then 0
    else if Cumulative(ws, k) > Reach(ws, k - 1) then Cumulative(ws, k)
    else Reach(ws, k - 1)
  }

  /** The index of the selected entry: the first whose cumulative weight exceeds the bucket. */
  method SelectEntry(ws: seq<WeightedVariation>, bucket: nat) returns (index: Option<nat>)
    ensures index.Some? ==> index.value < |ws| && Selects(ws, bucket, index.value)
    ensures index.None? ==> Unselected(ws, bucket)
  {
    var cumulativeWeight := 0;
    for i := 0 to |ws|
      invariant cumulativeWeight == Cumulative(ws, i) && bucket >= Reach(ws, i)
    {
      cumulativeWeight := cumulativeWeight + ws[i].weight;
      if bucket < cumulativeWeight {
        return Some(i);
      }
    }
    UnselectedIff(ws, bucket);
    return None;
  }

  /** Entry `i` owns the buckets from the reach before it up to the reach with it. */
  predicate Selects(ws: seq<WeightedVariation>, bucket: nat, i: nat)
    requires i < |ws|
  {
    Reach(ws, i) <= bucket < Reach(ws, i + 1)
  }

  /** None of the first `k` cumulative weights exceeds the bucket. */
  predicate Passed(ws: seq<WeightedVariation>, k: nat, bucket: nat)
    requires k <= |ws|
  {
    forall j | 0 < j <= k :: Cumulative(ws, j) <= bucket
  }

  lemma {:induction false} ReachIsMaximum(ws: seq<WeightedVariation>, k: nat, bucket: nat)
    requires k <= |ws|
    ensures Reach(ws, k) <= bucket <==> Passed(ws, k, bucket)
  {
    if k > 0 {
      ReachIsMaximum(ws, k - 1, bucket);
      assert Passed(ws, k, bucket) <==> Passed(ws, k - 1, bucket) && Cumulative(ws, k) <= bucket;
    }
  }

  /** The first entry whose cumulative weight exceeds the bucket is the one that owns it. */
  lemma {:induction false} FirstExceeding(ws: seq<WeightedVariation>, bucket: nat, i: nat)
    requires i < |ws|
    ensures Selects(ws, bucket, i) <==> Passed(ws, i, bucket) && bucket < Cumulative(ws, i + 1)
  {
    ReachIsMaximum(ws, i, bucket);
  }

  /** So no bucket selects two entries. */
  lemma SelectedOnce(ws: seq<WeightedVariation>, bucket: nat, i: nat, j: nat)
    requires i < |ws| && j < |ws| && Selects(ws, bucket, i) && Selects(ws, bucket, j)
    ensures i == j
  {
    if i < j {
      ReachGrows(ws, i + 1, j);
    } else if j < i {
      ReachGrows(ws, j + 1, i);
    }
  }

  lemma {:induction false} ReachGrows(ws: seq<WeightedVariation>, k: nat, m: nat)
    requires k <= m <= |ws|
    ensures Reach(ws, k) <= Reach(ws, m)
    decreases m
  {
    if k < m { ReachGrows(ws, k, m - 1); }
  }

  // ---------------------------------------------------------------------------
  // How many buckets
  // ---------------------------------------------------------------------------

  predicate Between(lo: nat, b: nat, hi: nat) {
    lo <= b < hi
  }

  function Interval(lo: nat, hi: nat): set<nat> {
    set b: nat | b < hi && Between(lo, b, hi)
  }

  lemma {:induction false} IntervalSize(lo: nat, hi: nat)
    requires lo <= hi
    ensures |Interval(lo, hi)| == hi - lo
    decreases hi
  {
    if lo == hi {
      assert Interval(lo, hi) == {};
    } else {
      IntervalSize(lo, hi - 1);
      assert Interval(lo, hi) == Interval(lo, hi - 1) + {hi - 1};
    }
  }

  function Clip(n: nat): nat {
    if n < BUCKETS then n else BUCKETS
  }

  function BucketsOf(ws: seq<WeightedVariation>, i: nat): set<nat>
    requires i < |ws|
  {
    set b: nat | b < 100000 && Selects(ws, b, i)
  }

  /** No entry owns the bucket. */
  predicate Unselected(ws: seq<WeightedVariation>, bucket: nat) {
    forall i: nat | 0 <= i < |ws| :: !Selects(ws, bucket, i)
  }

  function UnselectedBuckets(ws: seq<WeightedVariation>): set<nat> {
    set b: nat | b < 100000 && Unselected(ws, b)
  }

  /** A bucket below the reach of some entries has an owner among them. */
  lemma {:induction false} OwnerBelow(ws: seq<WeightedVariation>, bucket: nat, k: nat) returns (i: nat)
    requires k <= |ws| && bucket < Reach(ws, k)
    ensures i < k && Selects(ws, bucket, i)
  {
    if Reach(ws, k - 1) <= bucket { i := k - 1; } else { i := OwnerBelow(ws, bucket, k - 1); }
  }

  lemma UnselectedIff(ws: seq<WeightedVariation>, bucket: nat)
    ensures Unselected(ws, bucket) <==> bucket >= Reach(ws, |ws|)
  {
    if bucket < Reach(ws, |ws|) {
      var i := OwnerBelow(ws, bucket, |ws|);
    } else {
      forall i: nat | i < |ws| ensures !Selects(ws, bucket, i) { ReachGrows(ws, i + 1, |ws|); }
    }
  }

  /** For any weights at all, entry `i` gets what it adds to the reach within the buckets. */
  lemma BucketsExactly(ws: seq<WeightedVariation>, i: nat)
    requires i < |ws|
    ensures |BucketsOf(ws, i)| == Clip(Reach(ws, i + 1)) - Clip(Reach(ws, i))
    ensures |UnselectedBuckets(ws)| == BUCKETS - Clip(Reach(ws, |ws|))
  {
    ReachGrows(ws, i, i + 1);
    assert BucketsOf(ws, i) == Interval(Clip(Reach(ws, i)), Clip(Reach(ws, i + 1)));
    IntervalSize(Clip(Reach(ws, i)), Clip(Reach(ws, i + 1)));
    forall b: nat | b < BUCKETS ensures Unselected(ws, b) <==> b >= Reach(ws, |ws|) { UnselectedIff(ws, b); }
    assert UnselectedBuckets(ws) == Interval(Clip(Reach(ws, |ws|)), BUCKETS);
    IntervalSize(Clip(Reach(ws, |ws|)), BUCKETS);
  }

  predicate NonNegative(ws: seq<WeightedVariation>) {
    forall i | 0 <= i < |ws| :: ws[i].weight >= 0
  }

  lemma {:induction false} ReachIsSum(ws: seq<WeightedVariation>, k: nat)
    requires k <= |ws| && NonNegative(ws)
    ensures Reach(ws, k) == Cumulative(ws, k)
  {
    if k > 0 { ReachIsSum(ws, k - 1); }
  }

  /** Non-negative weights that sum to at most 100000 are exact: entry `i` gets its weight. */
  lemma WeightsAreExact(ws: seq<WeightedVariation>, i: nat)
    requires i < |ws| && NonNegative(ws) && Cumulative(ws, |ws|) <= 100000
    ensures |BucketsOf(ws, i)| == ws[i].weight
    ensures |UnselectedBuckets(ws)| == 100000 - Cumulative(ws, |ws|)
  {
    BucketsExactly(ws, i);
    ReachIsSum(ws, i);
    ReachIsSum(ws, i + 1);
    ReachIsSum(ws, |ws|);
    ReachGrows(ws, i + 1, |ws|);
  }

  // ---------------------------------------------------------------------------
  // How many hash prefixes
  // ---------------------------------------------------------------------------

  /** Every bucket has 42949 full rounds of prefixes; the first 67296 buckets have one prefix more. */
  const ROUNDS := 42949
  const EXTRA := 67296

  function Rounds(b: nat): nat {
    if b < EXTRA then ROUNDS + 1 else ROUNDS
  }

  function PrefixesOf(b: nat): set<nat> {
    set v: nat | v < TWO32 && v % BUCKETS == b
  }

  /** b, b + 100000, ..., n of them. */
  function Progression(b: nat, n: nat): set<nat> {
    if n == 0 then {} else Progression(b, n - 1) + {(n - 1) * BUCKETS + b}
  }

  /** `v` falls into bucket `b` in one of the first `n` rounds. */
  predicate Falls(v: nat, b: nat, n: nat) {
    v % BUCKETS == b && v / BUCKETS < n
  }

  lemma FallsOnce(v: nat, b: nat, n: nat)
    requires b < BUCKETS
    ensures Falls(v, b, n + 1) <==> Falls(v, b, n) || v == n * BUCKETS + b
    ensures Falls(v, b, n) ==> v != n * BUCKETS + b
  {
    assert v == (v / BUCKETS) * BUCKETS + v % BUCKETS;
  }

  lemma {:induction false} ProgressionMembers(b: nat, n: nat)
    requires b < BUCKETS
    ensures forall v: nat :: v in Progression(b, n) <==> Falls(v, b, n)
    ensures |Progression(b, n)| == n
  {
    if n > 0 {
      hide Falls;
      ProgressionMembers(b, n - 1);
      forall v: nat
        ensures Falls(v, b, n) <==> Falls(v, b, n - 1) || v == (n - 1) * BUCKETS + b
        ensures Falls(v, b, n - 1) ==> v != (n - 1) * BUCKETS + b
      {
        FallsOnce(v, b, n - 1);
      }
    }
  }

  lemma PrefixCount(b: nat)
    requires b < BUCKETS
    ensures |PrefixesOf(b)| == Rounds(b)
  {
    ProgressionMembers(b, Rounds(b));
    assert TWO32 == ROUNDS * BUCKETS + EXTRA;
    forall v: nat | v % BUCKETS == b ensures v < TWO32 <==> v / BUCKETS < Rounds(b) {
      assert v == (v / BUCKETS) * BUCKETS + b;
    }
    assert PrefixesOf(b) == Progression(b, Rounds(b));
  }

  /** The hash prefixes whose bucket lies in an interval. */
  function PrefixesIn(lo: nat, hi: nat): set<nat> {
    set v: nat | v < TWO32 && lo <= v % BUCKETS < hi
  }

  lemma {:induction false} PrefixesInCount(lo: nat, hi: nat)
    requires lo <= hi <= BUCKETS
    ensures |PrefixesIn(lo, hi)| == ROUNDS * (hi - lo) +
            (if hi < EXTRA then hi else EXTRA) - (if lo < EXTRA then lo else EXTRA)
    decreases hi
  {
    if lo == hi {
      assert PrefixesIn(lo, hi) == {};
    } else {
      PrefixesInCount(lo, hi - 1);
      PrefixCount(hi - 1);
      assert PrefixesIn(lo, hi) == PrefixesIn(lo, hi - 1) + PrefixesOf(hi - 1);
      assert PrefixesIn(lo, hi - 1) !! PrefixesOf(hi - 1);
    }
  }

  /** The prefixes that select entry `i`. */
  function PrefixesFor(ws: seq<WeightedVariation>, i: nat): set<nat>
    requires i < |ws|
  {
    set v: nat | v < 0x1_0000_0000 && Selects(ws, v % 100000, i)
  }

  /** Of the 2^32 hash prefixes an entry gets its share to within one part in 42949. */
  lemma PrefixShare(ws: seq<WeightedVariation>, i: nat)
    requires i < |ws| && NonNegative(ws) && Cumulative(ws, |ws|) <= 100000
    ensures 42949 * ws[i].weight <= |PrefixesFor(ws, i)| <= 42950 * ws[i].weight
  {
    ReachIsSum(ws, i);
    ReachIsSum(ws, i + 1);
    ReachIsSum(ws, |ws|);
    ReachGrows(ws, i, i + 1);
    ReachGrows(ws, i + 1, |ws|);
    assert PrefixesFor(ws, i) == PrefixesIn(Reach(ws, i), Reach(ws, i + 1));
    PrefixesInCount(Reach(ws, i), Reach(ws, i + 1));
  }

  // ---------------------------------------------------------------------------
  // The percentage rollout
  // ---------------------------------------------------------------------------

  /** The targeting rollout test. */
  predicate InRollout(bucket: nat, rollout: int) {
    rollout > 0 && bucket / 1000 < rollout
  }

  function Percent(rollout: int): nat {
    if rollout <= 0 then 0 else if rollout >= 100 then 100 else rollout
  }

  /** A rollout of r percent takes in exactly 1000 r buckets. */
  lemma RolloutSize(rollout: int)
    ensures |set b: nat | b < 100000 && InRollout(b, rollout)| == 1000 * Percent(rollout)
  {
    forall b: nat | b < BUCKETS ensures InRollout(b, rollout) <==> b < 1000 * Percent(rollout) {
      InRolloutIff(b, rollout);
    }
    assert (set b: nat | b < BUCKETS && InRollout(b, rollout)) == Interval(0, 1000 * Percent(rollout));
    IntervalSize(0, 1000 * Percent(rollout));
  }

  // ---------------------------------------------------------------------------
  // Evaluation
  // ---------------------------------------------------------------------------

  /** An attribute or clause value: absent, a string, or anything else with its printed form. */
  datatype Value = Nil | Word(text: string) | Other(text: string)

  datatype Clause = Clause(attribute: string, operator: string, values: seq<Value>, negate: bool)
  datatype Rollout = Rollout(variations: seq<WeightedVariation>, bucketBy: string)
  datatype Choice = Choice(variation: Option<int>, rollout: Option<Rollout>)
  datatype Rule = Rule(clauses: seq<Clause>, choice: Choice)
  datatype Targeting = Targeting(users: seq<string>, segments: seq<string>, rollout: int)
  datatype Flag = Flag(key: string, enabled: bool, variations: seq<string>, offVariation: int,
                       targeting: Option<Targeting>, rules: seq<Rule>, fallthrough: Choice)

  datatype Context = Context(userID: string, userRole: string, deviceID: string, email: string, country: string,
                             platform: string, appVersion: string, segments: seq<string>,
                             attributes: map<string, Value>, claims: map<string, Value>)

  /** The first four bytes of the digest of a string, and whether a pattern that compiles matches one. */
  datatype Library = Library(prefix: string -> nat, matches: (string, string) -> bool)

  function Printed(v: Value): string {
    if v.Nil? then "<nil>" else v.text
  }

  function GetBucket(lib: Library, flagKey: string, salt: string): (b: nat)
    ensures b < BUCKETS
  {
    (lib.prefix(flagKey + ":" + salt) % TWO32) % BUCKETS
  }

  function GetVariationValue(flag: Flag, index: int): Option<string> {
    if 0 <= index < |flag.variations| then Some(flag.variations[index]) else None
  }

  function GetAttribute(attr: string, ctx: Context): Value {
    var name := ToLower(attr);
    if name == "id" || name == "userid" || name == "user_id" then Word(ctx.userID)
    else if name == "role" || name == "userrole" || name == "user_role" then Word(ctx.userRole)
    else if name == "deviceid" || name == "device_id" then Word(ctx.deviceID)
    else if name == "email" then Word(ctx.email)
    else if name == "country" then Word(ctx.country)
    else if name == "platform" then Word(ctx.platform)
    else if name == "appversion" then Word(ctx.appVersion)
    else if attr in ctx.attributes then ctx.attributes[attr]
    else if attr in ctx.claims then ctx.claims[attr]
    else Nil
  }

  // Clauses --------------------------------------------------------------------

  predicate HasPrefix(s: string, t: string) {
    |t| <= |s| && s[..|t|] == t
  }

  predicate HasSuffix(s: string, t: string) {
    |t| <= |s| && s[|s| - |t|..] == t
  }

  predicate Compares(lib: Library, operator: string, s: string, t: string) {
    || (operator == "startswith" && HasPrefix(s, t))
    || (operator == "endswith" && HasSuffix(s, t))
    || (operator == "contains" && Occurs(t, s))
    || (operator == "matches" && lib.matches(t, s))
  }

  predicate Listed(values: seq<Value>, val: Value) {
    exists v <- values :: Printed(v) == Printed(val)
  }

  predicate ClauseHolds(lib: Library, clause: Clause, ctx: Context) {
    var val := GetAttribute(clause.attribute, ctx);
    var operator := ToLower(clause.operator);
    clause.negate !=
    (|| (operator == "in" && Listed(clause.values, val))
     || (operator == "notin" && !Listed(clause.values, val))
     || (val.Word? && exists v <- clause.values :: v.Word? && Compares(lib, operator, val.text, v.text)))
  }

  predicate RuleHolds(lib: Library, rule: Rule, ctx: Context) {
    rule.clauses != [] && forall c <- rule.clauses :: ClauseHolds(lib, c, ctx)
  }

  method Contains(values: seq<Value>, val: Value) returns (found: bool)
    ensures found == Listed(values, val)
  {
    for i := 0 to |values|
      invariant forall j | 0 <= j < i :: Printed(values[j]) != Printed(val)
    {
      if Printed(values[i]) == Printed(val) { return true; }
    }
    return false;
  }

  method MatchClause(lib: Library, clause: Clause, ctx: Context) returns (holds: bool)
    ensures holds == ClauseHolds(lib, clause, ctx)
  {
    hide HasPrefix, HasSuffix, Occurs, GetAttribute, Printed, ToLower;
    var val := GetAttribute(clause.attribute, ctx);
    var operator := ToLower(clause.operator);
    var matched := false;
    if operator == "in" {
      matched := Contains(clause.values, val);
    } else if operator == "notin" {
      matched := Contains(clause.values, val);
      matched := !matched;
    } else if val.Word? {
      for i := 0 to |clause.values|
        invariant matched <==> exists j | 0 <= j < i ::
          clause.values[j].Word? && Compares(lib, operator, val.text, clause.values[j].text)
      {
        if clause.values[i].Word? && Compares(lib, operator, val.text, clause.values[i].text) {
          matched := true;
          break;
        }
      }
    }
    return if clause.negate then !matched else matched;
  }

  method MatchRule(lib: Library, rule: Rule, ctx: Context) returns (holds: bool)
    ensures holds == RuleHolds(lib, rule, ctx)
  {
    if |rule.clauses| == 0 { return false; }
    for i := 0 to |rule.clauses|
      invariant forall j | 0 <= j < i :: ClauseHolds(lib, rule.clauses[j], ctx)
    {
      var clause := MatchClause(lib, rule.clauses[i], ctx);
      if !clause { return false; }
    }
    return true;
  }

  // Choices --------------------------------------------------------------------

  /** The bucket a rollout puts a context in. */
  function RolloutBucket(lib: Library, rollout: Rollout, flag: Flag, ctx: Context): (b: nat)
    ensures b < BUCKETS
  {
    var attr := if rollout.bucketBy == "" then "id" else rollout.bucketBy;
    GetBucket(lib, flag.key, Printed(GetAttribute(attr, ctx)))
  }

  /** A fixed variation wins; otherwise the entry that owns the bucket, if any entry does. */
  ghost predicate Chosen(lib: Library, choice: Choice, flag: Flag, ctx: Context, value: Option<string>) {
    match choice
    case Choice(Some(variation), _) => value == GetVariationValue(flag, variation)
    case Choice(None, None) => value == None
    case Choice(None, Some(rollout)) => Drawn(rollout.variations, RolloutBucket(lib, rollout, flag, ctx), flag, value)
  }

  ghost predicate Drawn(ws: seq<WeightedVariation>, bucket: nat, flag: Flag, value: Option<string>) {
    || (exists i: nat :: i < |ws| && Selects(ws, bucket, i) && value == GetVariationValue(flag, ws[i].variation))
    || (Unselected(ws, bucket) && value == None)
  }

  method SelectVariation(lib: Library, choice: Choice, flag: Flag, ctx: Context) returns (value: Option<string>)
    ensures Chosen(lib, choice, flag, ctx, value)
  {
    hide GetAttribute, Printed;
    if choice.variation.Some? {
      return GetVariationValue(flag, choice.variation.value);
    }
    if choice.rollout.Some? {
      var rollout := choice.rollout.value;
      var index := SelectEntry(rollout.variations, RolloutBucket(lib, rollout, flag, ctx));
      if index.Some? {
        return GetVariationValue(flag, rollout.variations[index.value].variation);
      }
    }
    return None;
  }

  /** A draw has one outcome. */
  lemma DrawnOnce(ws: seq<WeightedVariation>, bucket: nat, flag: Flag, v: Option<string>, w: Option<string>)
    requires Drawn(ws, bucket, flag, v) && Drawn(ws, bucket, flag, w)
    ensures v == w
  {
    forall i: nat, j: nat | i < |ws| && j < |ws| && Selects(ws, bucket, i) && Selects(ws, bucket, j) ensures i == j {
      SelectedOnce(ws, bucket, i, j);
    }
  }

  // Flags ----------------------------------------------------------------------

  /** The key that a targeting rollout buckets by: the user, or the device of an unknown user. */
  function BucketKey(ctx: Context): string {
    if ctx.userID == "" then ctx.deviceID else ctx.userID
  }

  predicate InSegment(segments: seq<string>, ctx: Context) {
    exists s <- segments :: Folded(s, ctx.segments)
  }

  predicate Folded(s: string, segments: seq<string>) {
    exists t <- segments :: EqualFold(s, t)
  }

  predicate Targeted(lib: Library, flagKey: string, t: Targeting, ctx: Context) {
    || (ctx.userID != "" && ctx.userID in t.users)
    || InSegment(t.segments, ctx)
    || (BucketKey(ctx) != "" && InRollout(GetBucket(lib, flagKey, BucketKey(ctx)), t.rollout))
  }

  method MatchSegments(segments: seq<string>, ctx: Context) returns (matched: bool)
    ensures matched == InSegment(segments, ctx)
  {
    hide EqualFold;
    for i := 0 to |segments|
      invariant forall k | 0 <= k < i :: !Folded(segments[k], ctx.segments)
    {
      for j := 0 to |ctx.segments|
        invariant forall k | 0 <= k < j :: !EqualFold(segments[i], ctx.segments[k])
      {
        if EqualFold(segments[i], ctx.segments[j]) {
          assert ctx.segments[j] in ctx.segments && Folded(segments[i], ctx.segments);
          assert segments[i] in segments;
          return true;
        }
      }
    }
    return false;
  }

  method MatchTargeting(lib: Library, flagKey: string, t: Targeting, ctx: Context) returns (matched: bool)
    ensures matched == Targeted(lib, flagKey, t, ctx)
  {
    hide EqualFold, GetBucket;
    matched := false;
    if ctx.userID != "" {
      for i := 0 to |t.users|
        invariant matched <==> ctx.userID in t.users[..i]
      {
        if t.users[i] == ctx.userID {
          matched := true;
          break;
        }
      }
    }
    if !matched {
      matched := MatchSegments(t.segments, ctx);
    }
    if !matched && t.rollout > 0 {
      var bucketKey := ctx.userID;
      if bucketKey == "" {
        bucketKey := ctx.deviceID;
      }
      if bucketKey != "" {
        var bucket := GetBucket(lib, flagKey, bucketKey);
        if bucket / 1000 < t.rollout {
          matched := true;
        }
      }
    }
  }

  /** Which value a flag may give: off, then targeting, then the first rule that holds, then the fallthrough. */
  ghost predicate Gives(lib: Library, flag: Flag, ctx: Context, value: Option<string>) {
    if !flag.enabled then value == GetVariationValue(flag, flag.offVariation)
    else if flag.targeting.Some? then
      var targeted := Targeted(lib, flag.key, flag.targeting.value, ctx);
      value == GetVariationValue(flag, if targeted then 0 else flag.offVariation)
    else if exists k :: FirstHolding(lib, flag.rules, ctx, k) then
      exists k: nat :: FirstHolding(lib, flag.rules, ctx, k) && Chosen(lib, flag.rules[k].choice, flag, ctx, value)
    else Chosen(lib, flag.fallthrough, flag, ctx, value)
  }

  ghost predicate FirstHolding(lib: Library, rules: seq<Rule>, ctx: Context, k: int) {
    0 <= k < |rules| && RuleHolds(lib, rules[k], ctx) && forall j | 0 <= j < k :: !RuleHolds(lib, rules[j], ctx)
  }

  method Evaluate(lib: Library, flag: Flag, ctx: Context) returns (value: Option<string>)
    ensures Gives(lib, flag, ctx, value)
  {
    hide RuleHolds, Targeted, Chosen;
    if !flag.enabled {
      return GetVariationValue(flag, flag.offVariation);
    }
    if flag.targeting.Some? {
      var matched := MatchTargeting(lib, flag.key, flag.targeting.value, ctx);
      return GetVariationValue(flag, if matched then 0 else flag.offVariation);
    }
    for i := 0 to |flag.rules|
      invariant forall j | 0 <= j < i :: !RuleHolds(lib, flag.rules[j], ctx)
    {
      var holds := MatchRule(lib, flag.rules[i], ctx);
      if holds {
        value := SelectVariation(lib, flag.rules[i].choice, flag, ctx);
        assert FirstHolding(lib, flag.rules, ctx, i);
        return;
      }
    }
    value := SelectVariation(lib, flag.fallthrough, flag, ctx);
  }

  /** A flag gives every context one value. */
  lemma GivesOne(lib: Library, flag: Flag, ctx: Context, v: Option<string>, w: Option<string>)
    requires Gives(lib, flag, ctx, v) && Gives(lib, flag, ctx, w)
    ensures v == w
  {
    forall choice: Choice | Chosen(lib, choice, flag, ctx, v) && Chosen(lib, choice, flag, ctx, w) ensures v == w {
      if choice.variation.None? && choice.rollout.Some? {
        var rollout := choice.rollout.value;
        DrawnOnce(rollout.variations, RolloutBucket(lib, rollout, flag, ctx), flag, v, w);
      }
    }
  }

  /** The buckets a targeting rollout takes in are the first 1000 r. */
  lemma InRolloutIff(bucket: nat, rollout: int)
    requires bucket < BUCKETS
    ensures InRollout(bucket, rollout) <==> bucket < 1000 * Percent(rollout)
  {
    assert bucket == 1000 * (bucket / 1000) + bucket % 1000;
  }

  function Raised(t: Targeting, rollout: int): Targeting {
    t.(rollout := rollout)
  }

  /** Raising a targeting rollout takes nobody out, and takes in exactly those whose bucket lies
      between the old percentage and the new one. */
  lemma RaisingAddsBuckets(lib: Library, flagKey: string, t: Targeting, rollout: int, ctx: Context)
    requires t.rollout <= rollout
    ensures var bucket := GetBucket(lib, flagKey, BucketKey(ctx));
            Targeted(lib, flagKey, Raised(t, rollout), ctx) <==>
            Targeted(lib, flagKey, t, ctx)
            || (BucketKey(ctx) != "" && 1000 * Percent(t.rollout) <= bucket < 1000 * Percent(rollout))
  {
    hide GetBucket, InRollout, InSegment;
    InRolloutIff(GetBucket(lib, flagKey, BucketKey(ctx)), t.rollout);
    InRolloutIff(GetBucket(lib, flagKey, BucketKey(ctx)), rollout);
  }

  // ---------------------------------------------------------------------------
  // What a flag gives, read off its parts
  // ---------------------------------------------------------------------------

  lemma ValueIs(flag: Flag, index: int)
    ensures 0 <= index < |flag.variations| ==> GetVariationValue(flag, index) == Some(flag.variations[index])
    ensures index < 0 || index >= |flag.variations| ==> GetVariationValue(flag, index) == None
  {}

  /** Off gives the off value; a target the first variation and anyone else the off value. */
  lemma TargetingGives(lib: Library, flag: Flag, ctx: Context, value: Option<string>)
    requires Gives(lib, flag, ctx, value) && (!flag.enabled || flag.targeting.Some?)
    ensures var index := if flag.enabled && Targeted(lib, flag.key, flag.targeting.value, ctx) then 0
            else flag.offVariation;
            value == if 0 <= index < |flag.variations| then Some(flag.variations[index]) else None
  {
    ValueIs(flag, 0);
    ValueIs(flag, flag.offVariation);
  }

  /** A target is a listed user, a member of a listed segment up to case, or a user, or else a device,
      whose digest prefix falls below the percentage. */
  lemma TargetedIff(lib: Library, flagKey: string, t: Targeting, ctx: Context)
    ensures Targeted(lib, flagKey, t, ctx) <==>
            || (ctx.userID != "" && exists i :: 0 <= i < |t.users| && t.users[i] == ctx.userID)
            || (exists s, c :: s in t.segments && c in ctx.segments && ToLower(s) == ToLower(c))
            || (exists key :: key != "" && (key == ctx.userID || (ctx.userID == "" && key == ctx.deviceID))
                  && lib.prefix(flagKey + ":" + key) % 0x1_0000_0000 % 100000 < 1000 * Percent(t.rollout))
  {
    hide ToLower, InRollout, Percent;
    var key := BucketKey(ctx);
    InRolloutIff(GetBucket(lib, flagKey, key), t.rollout);
    SegmentIff(t.segments, ctx);
  }

  lemma SegmentIff(segments: seq<string>, ctx: Context)
    ensures InSegment(segments, ctx) <==>
            exists s, c :: s in segments && c in ctx.segments && ToLower(s) == ToLower(c)
  {
    hide ToLower;
  }

  /** Without targeting the first rule that holds chooses, or if none does the fallthrough. */
  lemma RulesGive(lib: Library, flag: Flag, ctx: Context, k: nat, value: Option<string>)
    requires Gives(lib, flag, ctx, value) && flag.enabled && flag.targeting.None? && k <= |flag.rules|
    requires forall j :: 0 <= j < k ==> !RuleHolds(lib, flag.rules[j], ctx)
    requires k < |flag.rules| ==> RuleHolds(lib, flag.rules[k], ctx)
    ensures Chosen(lib, if k < |flag.rules| then flag.rules[k].choice else flag.fallthrough, flag, ctx, value)
  {
    hide RuleHolds, Chosen;
    if k < |flag.rules| {
      assert FirstHolding(lib, flag.rules, ctx, k);
      forall m: nat | FirstHolding(lib, flag.rules, ctx, m) ensures m == k {
        assert m >= k && k >= m;
      }
    }
  }

  /** A fixed variation is chosen; else that of the entry whose share the digest prefix falls into. */
  lemma ChoiceGives(lib: Library, choice: Choice, flag: Flag, ctx: Context, value: Option<string>, i: nat)
    requires Chosen(lib, choice, flag, ctx, value)
    ensures choice.variation.Some? ==> value == GetVariationValue(flag, choice.variation.value)
    ensures choice.variation.None? && choice.rollout.None? ==> value == None
    ensures choice.variation.None? && choice.rollout.Some? && i < |choice.rollout.value.variations| ==>
              var ws, attr := choice.rollout.value.variations, choice.rollout.value.bucketBy;
              var salt := if attr == "" then ctx.userID else Printed(GetAttribute(attr, ctx));
              lib.prefix(flag.key + ":" + salt) % 0x1_0000_0000 in PrefixesFor(ws, i) ==>
                value == GetVariationValue(flag, ws[i].variation)
  {
    if choice.variation.None? && choice.rollout.Some? && i < |choice.rollout.value.variations| {
      var rollout := choice.rollout.value;
      IdIsUser(ctx);
      var bucket := RolloutBucket(lib, rollout, flag, ctx);
      if Selects(rollout.variations, bucket, i) {
        DrawnOnce(rollout.variations, bucket, flag, value, GetVariationValue(flag, rollout.variations[i].variation));
      }
    }
  }

  lemma IdIsUser(ctx: Context)
    ensures GetAttribute("id", ctx) == Word(ctx.userID)
  {
    assert ToLower("id") == "id";
  }

  /** The built-in attributes, in any case; any other is looked up as written, in the attributes first. */
  lemma AttributeIs(attr: string, ctx: Context)
    ensures ToLower(attr) in {"id", "userid", "user_id"} ==> GetAttribute(attr, ctx) == Word(ctx.userID)
    ensures ToLower(attr) in {"role", "userrole", "user_role"} ==> GetAttribute(attr, ctx) == Word(ctx.userRole)
    ensures ToLower(attr) in {"deviceid", "device_id"} ==> GetAttribute(attr, ctx) == Word(ctx.deviceID)
    ensures ToLower(attr) == "email" ==> GetAttribute(attr, ctx) == Word(ctx.email)
    ensures ToLower(attr) == "country" ==> GetAttribute(attr, ctx) == Word(ctx.country)
    ensures ToLower(attr) == "platform" ==> GetAttribute(attr, ctx) == Word(ctx.platform)
    ensures ToLower(attr) == "appversion" ==> GetAttribute(attr, ctx) == Word(ctx.appVersion)
    ensures ToLower(attr) !in {"id", "userid", "user_id", "role", "userrole", "user_role", "deviceid", "device_id",
                               "email", "country", "platform", "appversion"} ==>
              && (attr in ctx.attributes ==> GetAttribute(attr, ctx) == ctx.attributes[attr])
              && (attr !in ctx.attributes && attr in ctx.claims ==> GetAttribute(attr, ctx) == ctx.claims[attr])
              && (attr !in ctx.attributes && attr !in ctx.claims ==> GetAttribute(attr, ctx) == Nil)
  {
    hide ToLower;
  }

  /** Each further clause narrows a rule, and a rule without clauses never holds. */
  lemma RuleNarrows(lib: Library, clauses: seq<Clause>, clause: Clause, choice: Choice, ctx: Context)
    ensures !RuleHolds(lib, Rule([], choice), ctx)
    ensures RuleHolds(lib, Rule([clause], choice), ctx) == ClauseHolds(lib, clause, ctx)
    ensures clauses != [] ==>
              RuleHolds(lib, Rule(clauses + [clause], choice), ctx) ==
              (RuleHolds(lib, Rule(clauses, choice), ctx) && ClauseHolds(lib, clause, ctx))
  {
    hide ClauseHolds;
    assert clause in [clause] && clause in clauses + [clause];
    assert forall c :: c in clauses + [clause] <==> c in clauses || c == clause;
  }

  /** A negated clause is the opposite; `notIn` is the opposite of `in`. */
  lemma ClauseNegated(lib: Library, clause: Clause, ctx: Context, operator: string)
    ensures ClauseHolds(lib, clause.(negate := true), ctx) == !ClauseHolds(lib, clause.(negate := false), ctx)
    ensures ToLower(operator) == "notin" ==>
              ClauseHolds(lib, clause.(operator := operator), ctx) ==
              !ClauseHolds(lib, clause.(operator := "in"), ctx)
  {
    assert ToLower("in") == "in";
    hide ToLower, GetAttribute, Listed;
  }

  /** A clause that is not negated holds when some value equals, starts, ends, is in, or as a pattern
      matches the attribute, as its operator says; under any other operator it does not. */
  lemma ClauseMeans(lib: Library, clause: Clause, ctx: Context)
    requires !clause.negate
    ensures var val, op := GetAttribute(clause.attribute, ctx), ToLower(clause.operator);
            && (op == "in" ==>
                  (ClauseHolds(lib, clause, ctx) <==> exists v :: v in clause.values && Printed(v) == Printed(val)))
            && (op == "startswith" ==>
                  (ClauseHolds(lib, clause, ctx) <==>
                    val.Word? && exists t, rest :: Word(t) in clause.values && val.text == t + rest))
            && (op == "endswith" ==>
                  (ClauseHolds(lib, clause, ctx) <==>
                    val.Word? && exists t, rest :: Word(t) in clause.values && val.text == rest + t))
            && (op == "contains" ==>
                  (ClauseHolds(lib, clause, ctx) <==>
                     val.Word? && exists t, a, b :: Word(t) in clause.values && val.text == a + t + b))
            && (op == "matches" ==>
                  (ClauseHolds(lib, clause, ctx) <==>
                    val.Word? && exists t :: Word(t) in clause.values && lib.matches(t, val.text)))
            && (op !in {"in", "notin", "startswith", "endswith", "contains", "matches"} ==>
                 !ClauseHolds(lib, clause, ctx))
  {
    hide ToLower, GetAttribute, Occurs;
    var val := GetAttribute(clause.attribute, ctx);
    forall s: string, t: string
      ensures HasPrefix(s, t) <==> exists rest :: s == t + rest
      ensures HasSuffix(s, t) <==> exists rest :: s == rest + t
      ensures Occurs(t, s) <==> exists a, b :: s == a + t + b
    {
      PartsMean(s, t);
    }
  }

  lemma PartsMean(s: string, t: string)
    ensures HasPrefix(s, t) <==> exists rest :: s == t + rest
    ensures HasSuffix(s, t) <==> exists rest :: s == rest + t
    ensures Occurs(t, s) <==> exists a, b :: s == a + t + b
  {
    OccursIff(t, s);
    if HasPrefix(s, t) { assert s == t + s[|t|..]; }
    if HasSuffix(s, t) { assert s == s[..|s| - |t|] + t; }
  }
}
