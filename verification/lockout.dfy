/** The admin login and its lockout: who may try, what a failure records, and over timed runs how
    often a key can fail. */
module Lockouts {
  import opened Options
  import opened Text

  /** Times are in nanoseconds: the lock is 15 minutes. */
  const LOCK := 900_000_000_000
  const THRESHOLD := 5

  datatype Attempt = Attempt(count: nat, lockedUntil: int)
  type Attempts = map<string, Attempt>

  // ---------------------------------------------------------------------------
  // The record of attempts
  // ---------------------------------------------------------------------------

  predicate LockedAt(a: Attempts, key: string, now: int) {
    key in a && now < a[key].lockedUntil
  }

  /** The end of the lock that refuses a login: the address is looked at before the email. */
  function RateLimit(a: Attempts, ip: string, email: string, now: int): Option<int> {
    if LockedAt(a, ip, now) then Some(a[ip].lockedUntil)
    else if LockedAt(a, email, now) then Some(a[email].lockedUntil)
    else None
  }

  function WithFailure(a: Attempts, key: string, now: int): Attempts {
    var count := if key in a then a[key].count + 1 else 1;
    a[key := Attempt(count, if count >= THRESHOLD then now + LOCK else now)]
  }

  // ---------------------------------------------------------------------------
  // The gates of a login
  // ---------------------------------------------------------------------------

  datatype Account = Account(email: string, password: string, role: string)

  /** What a login asks of the rest of the system: the account with an email, and whether a stored
      hash is that of a password. */
  datatype Directory = Directory(find: string -> Option<Account>, compare: (string, string) -> bool)

  datatype Outcome = TooManyRequests(until: int) | Unauthorized | Forbidden(role: string) | SignedIn(email: string)

  function Lookup(dir: Directory, email: string): Option<Account> {
    if dir.find(email).Some? then dir.find(email) else dir.find(ToLower(email))
  }

  predicate RoleAllowed(role: string) {
    ToLower(TrimSpace(role)) in ["admin", "superadmin", "superuser", "operator"]
  }

  /** An account is found, its password is right and its role may enter. */
  predicate Passes(dir: Directory, email: string, password: string) {
    var found := Lookup(dir, email);
    found.Some? && dir.compare(found.value.password, password) && RoleAllowed(found.value.role)
  }

  /** Who passes: an account found under the email as given, or failing that in lower case, whose stored
      hash is that of the password and whose role, up to case and blanks, is one of four. */
  lemma PassesIff(dir: Directory, email: string, password: string)
    ensures Passes(dir, email, password) <==>
            exists a ::
              && (dir.find(email) == Some(a) || (dir.find(email) == None && dir.find(ToLower(email)) == Some(a)))
              && dir.compare(a.password, password)
              && ToLower(TrimSpace(a.role)) in {"admin", "superadmin", "superuser", "operator"}
  {
    hide ToLower, TrimSpace;
  }

  // ---------------------------------------------------------------------------
  // Runs
  // ---------------------------------------------------------------------------

  /** A login attempt: when it asks whether it is locked out, and when its outcome is recorded. */
  datatype Request = Request(ip: string, email: string, checked: int, recorded: int, passes: bool)

  predicate Touches(r: Request, key: string) {
    key == r.ip || key == r.email
  }

  predicate Admitted(a: Attempts, r: Request) {
    RateLimit(a, r.ip, r.email, r.checked).None?
  }

  function Step(a: Attempts, r: Request): Attempts {
    if !Admitted(a, r) then a
    else if r.passes then a - {r.ip, r.email}
    else WithFailure(WithFailure(a, r.ip, r.recorded), r.email, r.recorded)
  }

  function Run(rs: seq<Request>): Attempts {
    if rs == [] then map[] else Step(Run(rs[..|rs| - 1]), rs[|rs| - 1])
  }

  /** Logins follow one another, on a clock that does not go back. */
  ghost predicate ClockRuns(rs: seq<Request>) {
    && (forall i | 0 <= i < |rs| :: rs[i].checked <= rs[i].recorded)
    && (forall i, j | 0 <= i < j < |rs| :: rs[i].recorded <= rs[j].checked)
  }

  /** When the admitted failures on a key happened since its last admitted success. */
  function Failures(rs: seq<Request>, key: string): seq<int> {
    if rs == [] then []
    else
      var (before, r) := (rs[..|rs| - 1], rs[|rs| - 1]);
      if !Touches(r, key) || !Admitted(Run(before), r) then Failures(before, key)
      else if r.passes then []
      else Failures(before, key) + [r.recorded]
  }

  /** How much they weigh: a login whose address is its email counts twice. */
  function Weight(rs: seq<Request>, key: string): nat {
    if rs == [] then 0
    else
      var (before, r) := (rs[..|rs| - 1], rs[|rs| - 1]);
      if !Touches(r, key) || !Admitted(Run(before), r) then Weight(before, key)
      else if r.passes then 0
      else Weight(before, key) + (if r.ip == r.email then 2 else 1)
  }

  // ---------------------------------------------------------------------------
  // What the record knows
  // ---------------------------------------------------------------------------

  function LockEnd(last: int, weight: nat): int {
    if weight >= THRESHOLD then last + LOCK else last
  }

  /** The record of a key is its failures: none, or their weight and the lock after the last. */
  ghost predicate Recorded(rs: seq<Request>, key: string) {
    var times := Failures(rs, key);
    && |times| <= Weight(rs, key)
    && (key in Run(rs) <==> times != [])
    && (times != [] ==> Run(rs)[key] == Attempt(Weight(rs, key), LockEnd(times[|times| - 1], Weight(rs, key))))
    && (times == [] ==> Weight(rs, key) == 0)
  }

  lemma {:induction false} EveryRunIsRecorded(rs: seq<Request>, key: string)
    ensures Recorded(rs, key)
  {
    if rs != [] {
      var before := rs[..|rs| - 1];
      EveryRunIsRecorded(before, key);
      StepRecords(Run(before), rs[|rs| - 1], key);
    }
  }

  /** An admitted failure adds its weight to the keys it touches; other keys stay as they were. */
  lemma StepRecords(a: Attempts, r: Request, key: string)
    ensures !Touches(r, key) || !Admitted(a, r) ==>
              (key in Step(a, r) <==> key in a) && (key in a ==> Step(a, r)[key] == a[key])
    ensures Touches(r, key) && Admitted(a, r) && r.passes ==> key !in Step(a, r)
    ensures Touches(r, key) && Admitted(a, r) && !r.passes ==>
              var weight := (if key in a then a[key].count else 0) + (if r.ip == r.email then 2 else 1);
              key in Step(a, r) && Step(a, r)[key] == Attempt(weight, LockEnd(r.recorded, weight))
  {
  }

  lemma {:induction false} TimesAreRecorded(rs: seq<Request>, key: string, i: nat)
    requires i < |Failures(rs, key)|
    ensures exists k :: 0 <= k < |rs| && rs[k].recorded == Failures(rs, key)[i]
  {
    if rs != [] {
      var before := rs[..|rs| - 1];
      if i < |Failures(before, key)| {
        TimesAreRecorded(before, key, i);
        var k :| 0 <= k < |before| && before[k].recorded == Failures(before, key)[i];
        assert rs[k] == before[k];
      }
    }
  }

  /** A key is locked when its failures weigh 5 or more, until 15 minutes after the last. */
  ghost predicate LockedOut(rs: seq<Request>, key: string, now: int) {
    var times := Failures(rs, key);
    Weight(rs, key) >= 5 && times != [] && now < times[|times| - 1] + 900_000_000_000
  }

  lemma LockedAtIff(rs: seq<Request>, r: Request, key: string)
    requires ClockRuns(rs + [r])
    ensures LockedAt(Run(rs), key, r.checked) <==> LockedOut(rs, key, r.checked)
  {
    EveryRunIsRecorded(rs, key);
    var times := Failures(rs, key);
    if times != [] {
      TimesAreRecorded(rs, key, |times| - 1);
      var k :| 0 <= k < |rs| && rs[k].recorded == times[|times| - 1];
      assert (rs + [r])[k] == rs[k] && (rs + [r])[|rs|] == r;
    }
  }

  /** Exactly the logins that touch a locked key are refused. */
  lemma RefusedIff(rs: seq<Request>, r: Request)
    requires ClockRuns(rs + [r])
    ensures !Admitted(Run(rs), r) <==> LockedOut(rs, r.ip, r.checked) || LockedOut(rs, r.email, r.checked)
  {
    LockedAtIff(rs, r, r.ip);
    LockedAtIff(rs, r, r.email);
  }

  /** The end that a refusal names: 15 minutes after the last failure from the address, or if the
      address is not locked of the email. */
  lemma RefusedUntil(rs: seq<Request>, r: Request)
    requires ClockRuns(rs + [r]) && !Admitted(Run(rs), r)
    ensures var key := if LockedOut(rs, r.ip, r.checked) then r.ip else r.email;
            var times := Failures(rs, key);
            times != [] && RateLimit(Run(rs), r.ip, r.email, r.checked) == Some(times[|times| - 1] + 900_000_000_000)
  {
    LockedAtIff(rs, r, r.ip);
    LockedAtIff(rs, r, r.email);
    EveryRunIsRecorded(rs, r.ip);
    EveryRunIsRecorded(rs, r.email);
  }

  // ---------------------------------------------------------------------------
  // How often a key can fail
  // ---------------------------------------------------------------------------

  /** Failures are in order, and from the fifth on 15 minutes apart. */
  ghost predicate Spaced(times: seq<int>) {
    forall i | 0 < i < |times| :: times[i] >= times[i - 1] + (if i < 5 then 0 else 900_000_000_000)
  }

  lemma {:induction false} FailuresAreSpaced(rs: seq<Request>, key: string)
    requires ClockRuns(rs)
    ensures Spaced(Failures(rs, key))
  {
    if rs != [] {
      var before, r := rs[..|rs| - 1], rs[|rs| - 1];
      FailuresAreSpaced(before, key);
      EveryRunIsRecorded(before, key);
      var times := Failures(before, key);
      if times != [] && Touches(r, key) && Admitted(Run(before), r) {
        TimesAreRecorded(before, key, |times| - 1);
        assert !LockedAt(Run(before), key, r.checked);
        assert r.recorded >= LockEnd(times[|times| - 1], Weight(before, key));
      }
    }
  }

  lemma {:induction false} SpacingAdds(times: seq<int>, i: nat, j: nat)
    requires Spaced(times) && THRESHOLD - 1 <= i <= j < |times|
    ensures times[j] - times[i] >= LOCK * (j - i)
  {
    if i < j { SpacingAdds(times, i, j - 1); }
  }

  lemma {:induction false} SpacingGrows(times: seq<int>, i: nat, j: nat)
    requires Spaced(times) && i <= j < |times|
    ensures times[i] <= times[j]
  {
    if i < j { SpacingGrows(times, i, j - 1); }
  }

  /** No window of length T takes in more than 5 + T / 15 min failures of a key. */
  lemma WindowBound(rs: seq<Request>, key: string, i: nat, j: nat, window: nat)
    requires ClockRuns(rs)
    requires i <= j < |Failures(rs, key)|
    requires Failures(rs, key)[j] - Failures(rs, key)[i] <= window
    ensures j - i + 1 <= 5 + window / 900_000_000_000
  {
    var times := Failures(rs, key);
    FailuresAreSpaced(rs, key);
    var from := if i < THRESHOLD - 1 then THRESHOLD - 1 else i;
    if from <= j {
      SpacingAdds(times, from, j);
      SpacingGrows(times, i, from);
    }
  }

  /** The n-th of five failures at once and then one as each lock ends. */
  function Tick(n: nat): nat {
    if n <= THRESHOLD then 0 else LOCK * (n - THRESHOLD)
  }

  function Persistent(ip: string, email: string, n: nat): seq<Request> {
    seq(n, i requires 0 <= i => Request(ip, email, Tick(i + 1), Tick(i + 1), false))
  }

  lemma FailureAppends(rs: seq<Request>, r: Request, key: string)
    requires Touches(r, key) && Admitted(Run(rs), r) && !r.passes && r.ip != r.email
    ensures Failures(rs + [r], key) == Failures(rs, key) + [r.recorded]
    ensures Weight(rs + [r], key) == Weight(rs, key) + 1
  {
    assert (rs + [r])[..|rs|] == rs;
  }

  /** When each of n persistent failures happens. */
  function Ticks(n: nat): seq<int> {
    seq(n, i requires 0 <= i => Tick(i + 1))
  }

  ghost predicate FailsAtTicks(rs: seq<Request>, key: string, n: nat) {
    Weight(rs, key) == n && Failures(rs, key) == Ticks(n)
  }

  lemma FailsUnlocked(rs: seq<Request>, key: string, n: nat)
    requires FailsAtTicks(rs, key, n)
    ensures !LockedAt(Run(rs), key, Tick(n + 1))
  {
    EveryRunIsRecorded(rs, key);
  }

  lemma {:induction false} PersistentIsAdmitted(ip: string, email: string, n: nat)
    requires ip != email
    ensures FailsAtTicks(Persistent(ip, email, n), ip, n) && FailsAtTicks(Persistent(ip, email, n), email, n)
  {
    if n > 0 {
      var r := Request(ip, email, Tick(n), Tick(n), false);
      var before := Persistent(ip, email, n - 1);
      PersistentIsAdmitted(ip, email, n - 1);
      FailsUnlocked(before, ip, n - 1);
      FailsUnlocked(before, email, n - 1);
      PersistentStep(before, r, ip, n - 1);
      PersistentStep(before, r, email, n - 1);
      assert Persistent(ip, email, n) == before + [r];
    }
  }

  lemma PersistentStep(rs: seq<Request>, r: Request, key: string, n: nat)
    requires FailsAtTicks(rs, key, n) && r.recorded == Tick(n + 1)
    requires Touches(r, key) && Admitted(Run(rs), r) && !r.passes && r.ip != r.email
    ensures FailsAtTicks(rs + [r], key, n + 1)
  {
    FailureAppends(rs, r, key);
    assert Ticks(n + 1) == Ticks(n) + [Tick(n + 1)];
  }

  /** The bound is met, whatever the window. */
  lemma BoundIsMet(ip: string, email: string, locks: nat)
    requires ip != email
    ensures var rs := Persistent(ip, email, 5 + locks);
            var times := Failures(rs, email);
            ClockRuns(rs) && |times| == 5 + locks && times[|times| - 1] - times[0] == 900_000_000_000 * locks
  {
    PersistentIsAdmitted(ip, email, THRESHOLD + locks);
  }

  // ---------------------------------------------------------------------------
  // The handler
  // ---------------------------------------------------------------------------

  class AuthHandler {
    var attempts: Attempts

    constructor ()
      ensures attempts == map[]
    {
      attempts := map[];
    }

    method CheckRateLimit(ip: string, email: string, now: int) returns (until: Option<int>)
      ensures until == RateLimit(attempts, ip, email, now)
    {
      var keys := [ip, email];
      for i := 0 to 2
        invariant forall j | 0 <= j < i :: !LockedAt(attempts, keys[j], now)
      {
        var key := keys[i];
        if key in attempts && now < attempts[key].lockedUntil {
          assert i == 1 ==> !LockedAt(attempts, keys[0], now);
          return Some(attempts[key].lockedUntil);
        }
      }
      assert keys[0] == ip && keys[1] == email;
      return None;
    }

    method RecordFailure(ip: string, email: string, now: int)
      modifies this
      ensures attempts == WithFailure(WithFailure(old(attempts), ip, now), email, now)
    {
      var keys := [ip, email];
      ghost var start := attempts;
      for i := 0 to 2
        invariant i == 0 ==> attempts == start
        invariant i == 1 ==> attempts == WithFailure(start, ip, now)
        invariant i == 2 ==> attempts == WithFailure(WithFailure(start, ip, now), email, now)
      {
        var key := keys[i];
        var attempt := if key in attempts then attempts[key] else Attempt(0, now);
        attempt := attempt.(count := attempt.count + 1);
        if attempt.count >= THRESHOLD {
          attempt := attempt.(lockedUntil := now + LOCK);
        } else {
          attempt := attempt.(lockedUntil := now);
        }
        attempts := attempts[key := attempt];
      }
    }

    method RecordSuccess(ip: string, email: string)
      modifies this
      ensures attempts == old(attempts) - {ip, email}
    {
      attempts := attempts - {ip};
      attempts := attempts - {email};
    }

    /** A login is refused by the lock before anything is looked up; it signs in exactly when it is
        admitted and passes every gate, and with the limit on it takes the step of its request. */
    method Login(dir: Directory, ip: string, email: string, password: string, rateLimit: bool, checked: int,
                 recorded: int)
      returns (outcome: Outcome)
      modifies this
      ensures var r := Request(ip, email, checked, recorded, Passes(dir, email, password));
              && attempts == (if rateLimit then Step(old(attempts), r) else old(attempts))
              && (outcome.TooManyRequests? <==> rateLimit && !Admitted(old(attempts), r))
              && (outcome.TooManyRequests? ==> RateLimit(old(attempts), ip, email, checked) == Some(outcome.until))
              && (outcome.SignedIn? <==> !outcome.TooManyRequests? && r.passes)
      ensures outcome.SignedIn? ==>
                var account := Lookup(dir, email).value;
                outcome.email == if account.email == "" then email else account.email
      ensures outcome.Forbidden? ==>
                Lookup(dir, email).Some? && outcome.role == Lookup(dir, email).value.role &&
                dir.compare(Lookup(dir, email).value.password, password)
      ensures outcome.Unauthorized? ==>
                Lookup(dir, email).None? || !dir.compare(Lookup(dir, email).value.password, password)
    {
      hide RoleAllowed, ToLower;
      if rateLimit {
        var until := CheckRateLimit(ip, email, checked);
        if until.Some? { return TooManyRequests(until.value); }
      }
      var admin := dir.find(email);
      if admin.None? {
        admin := dir.find(ToLower(email));
      }
      if admin.None? {
        if rateLimit { RecordFailure(ip, email, recorded); }
        return Unauthorized;
      }
      if !dir.compare(admin.value.password, password) {
        if rateLimit { RecordFailure(ip, email, recorded); }
        return Unauthorized;
      }
      if !RoleAllowed(admin.value.role) {
        if rateLimit { RecordFailure(ip, email, recorded); }
        return Forbidden(admin.value.role);
      }
      if rateLimit { RecordSuccess(ip, email); }
      return SignedIn(if admin.value.email == "" then email else admin.value.email);
    }
  }
}
