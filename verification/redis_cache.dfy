/** The Redis cache: values and tag sets in one key space, both with expirations. */
module RedisCaches {
  import opened Options

  /** Times and ttls in whole seconds. */
  const HOUR := 3600

  const KEY_PREFIX := "bffx:cache:k:"
  const TAG_PREFIX := "bffx:cache:t:"

  type Bytes = seq<int>

  datatype Until = Never | At(t: int)

  /** A Redis key: a string value or a set of members, gone from the given time on. */
  datatype Slot =
    | Value(value: Bytes, until: Until)
    | Members(members: set<string>, expires: int)

  type Redis = map<string, Slot>

  function DataKey(key: string): string {
    KEY_PREFIX + key
  }

  function TagKey(tag: string): string {
    TAG_PREFIX + tag
  }

  // ---------------------------------------------------------------------------
  // Redis commands
  // ---------------------------------------------------------------------------

  predicate Live(r: Redis, k: string, now: int) {
    k in r &&
    match r[k]
    case Value(_, until) => until.Never? || now < until.t
    case Members(_, expires) => now < expires
  }

  /** SET with a ttl that is not positive stores a value that never expires. */
  function ValueFor(value: Bytes, now: int, ttl: int): Slot {
    Value(value, if ttl > 0 then At(now + ttl) else Never)
  }

  /** An expired set reads as empty. */
  function SMembers(r: Redis, k: string, now: int): set<string> {
    if Live(r, k, now) && r[k].Members? then r[k].members else {}
  }

  /** SADD then EXPIRE: a set that has expired starts again empty. */
  function AddAndExpire(r: Redis, k: string, member: string, now: int, ttl: int): Redis {
    r[k := Members(SMembers(r, k, now) + {member}, now + ttl)]
  }

  /** UNLINK counts the keys that were there. */
  function Unlinked(r: Redis, keys: set<string>, now: int): nat {
    |set k | k in keys && Live(r, k, now)|
  }

  // ---------------------------------------------------------------------------
  // Cache operations
  // ---------------------------------------------------------------------------

  datatype Op =
    | Set(key: string, value: Bytes, tags: seq<string>, ttl: int)
    | Delete(key: string)
    | Flush
    | InvalidateTags(tags: seq<string>)
    | InvalidateKeys(keys: set<string>)

  function Tagged(r: Redis, full: string, tags: seq<string>, ttl: int, now: int): Redis
    decreases |tags|
  {
    if tags == [] then r
    else AddAndExpire(Tagged(r, full, tags[..|tags| - 1], ttl, now), TagKey(tags[|tags| - 1]), full, now, ttl + HOUR)
  }

  /** One round: unlink the members, then delete the set; an empty set is skipped. */
  function WithoutTag(r: Redis, tag: string, now: int): Redis {
    var keys := SMembers(r, TagKey(tag), now);
    if keys == {} then r else r - keys - {TagKey(tag)}
  }

  function WithoutTags(r: Redis, tags: seq<string>, now: int): Redis
    decreases |tags|
  {
    if tags == [] then r else WithoutTag(WithoutTags(r, tags[..|tags| - 1], now), tags[|tags| - 1], now)
  }

  function Apply(r: Redis, op: Op, now: int): Redis {
    match op
    case Set(key, value, tags, ttl) =>
      Tagged(r[DataKey(key) := ValueFor(value, now, ttl)], DataKey(key), tags, ttl, now)
    case Delete(key) => r - {DataKey(key)}
    case Flush => map[]
    case InvalidateTags(tags) => WithoutTags(r, tags, now)
    case InvalidateKeys(keys) => r - set k | k in keys :: DataKey(k)
  }

  // ---------------------------------------------------------------------------
  // Timed runs
  // ---------------------------------------------------------------------------

  datatype Event = Event(op: Op, at: int)

  /** `latest` records the tags and ttl of the latest set of each key; Redis does not. */
  datatype Latest = Latest(tags: seq<string>, ttl: int)
  datatype State = State(redis: Redis, latest: map<string, Latest>, clock: int)

  function Next(s: State, e: Event): State {
    State(Apply(s.redis, e.op, e.at),
          if e.op.Set? then s.latest[e.op.key := Latest(e.op.tags, e.op.ttl)] else s.latest,
          e.at)
  }

  function Run(start: int, events: seq<Event>): State
    decreases |events|
  {
    if events == [] then State(map[], map[], start) else Next(Run(start, events[..|events| - 1]), events[|events| - 1])
  }

  ghost predicate ClockRuns(start: int, events: seq<Event>) {
    && (forall i :: 0 <= i < |events| ==> start <= events[i].at)
    && forall i, j :: 0 <= i < j < |events| ==> events[i].at <= events[j].at
  }

  predicate SetsWithTag(op: Op, tag: string) {
    op.Set? && tag in op.tags
  }

  /** Positive ttls that differ by at most an hour. */
  ghost predicate CloseTtls(ttls: iset<int>) {
    forall a, b :: a in ttls && b in ttls ==> 0 < a <= b + 3600
  }

  /** The ttls that the run used with the tag. */
  ghost function TtlsOf(events: seq<Event>, tag: string): iset<int> {
    iset e <- events | SetsWithTag(e.op, tag) :: e.op.ttl
  }

  // ---------------------------------------------------------------------------
  // Tag sets outlive their keys
  // ---------------------------------------------------------------------------

  function LatestTags(latest: map<string, Latest>, key: string): seq<string> {
    if key in latest then latest[key].tags else []
  }

  predicate GoneBy(slot: Slot, t: int) {
    slot.Value? && slot.until.At? && slot.until.t <= t
  }

  /** The tag's set lists the stored key and expires no earlier. */
  ghost predicate Listed(r: Redis, tag: string, key: string)
    requires DataKey(key) in r
  {
    && TagKey(tag) in r && r[TagKey(tag)].Members?
    && DataKey(key) in r[TagKey(tag)].members
    && GoneBy(r[DataKey(key)], r[TagKey(tag)].expires)
  }

  /** A live key last set with the tag was set at most its ttl ago, and is listed under the tag. */
  ghost predicate KeyListed(r: Redis, latest: map<string, Latest>, now: int, tag: string, key: string) {
    Live(r, DataKey(key), now) ==>
      && key in latest
      && (tag in latest[key].tags ==> GoneBy(r[DataKey(key)], now + latest[key].ttl) && Listed(r, tag, key))
  }

  /** Tag sets list data keys only. */
  ghost predicate MembersAreData(r: Redis) {
    && (forall k :: k in r && r[k].Members? ==> TAG_PREFIX <= k)
    && forall k, m :: k in r && r[k].Members? && m in r[k].members ==> KEY_PREFIX <= m
  }

  ghost predicate Sound(r: Redis, latest: map<string, Latest>, now: int, tag: string) {
    MembersAreData(r) && forall key :: KeyListed(r, latest, now, tag, key)
  }

  lemma KeySpaces(key: string, tag: string, other: string)
    ensures KEY_PREFIX <= DataKey(key) && !(KEY_PREFIX <= TagKey(tag)) && !(TAG_PREFIX <= DataKey(key))
    ensures DataKey(key) != TagKey(tag)
    ensures DataKey(key) == DataKey(other) ==> key == other
    ensures TagKey(tag) == TagKey(other) ==> tag == other
  {
    assert DataKey(key)[11] == 'k' && TagKey(tag)[11] == 't';
    assert DataKey(key)[|KEY_PREFIX|..] == key && DataKey(other)[|KEY_PREFIX|..] == other;
    assert TagKey(tag)[|TAG_PREFIX|..] == tag && TagKey(other)[|TAG_PREFIX|..] == other;
  }

  /** What the pipeline leaves in each slot. */
  lemma {:induction false} TaggedSlots(r: Redis, full: string, tags: seq<string>, ttl: int, now: int)
    ensures var r' := Tagged(r, full, tags, ttl, now);
            && (forall tag :: tag in tags ==>
                  && TagKey(tag) in r' && r'[TagKey(tag)].Members?
                  && r'[TagKey(tag)].members <= SMembers(r, TagKey(tag), now) + {full}
                  && (ttl + HOUR > 0 ==>
                        r'[TagKey(tag)] == Members(SMembers(r, TagKey(tag), now) + {full}, now + ttl + HOUR)))
            && (forall k :: (forall tag :: tag in tags ==> k != TagKey(tag)) ==>
                  (k in r' <==> k in r) && (k in r ==> r'[k] == r[k]))
    decreases |tags|
  {
    if tags != [] {
      var most, last := tags[..|tags| - 1], tags[|tags| - 1];
      TaggedSlots(r, full, most, ttl, now);
      var before, after := Tagged(r, full, most, ttl, now), Tagged(r, full, tags, ttl, now);
      forall tag | tag in tags
        ensures TagKey(tag) in after && after[TagKey(tag)].Members?
        ensures after[TagKey(tag)].members <= SMembers(r, TagKey(tag), now) + {full}
        ensures ttl + HOUR > 0 ==>
                  after[TagKey(tag)] == Members(SMembers(r, TagKey(tag), now) + {full}, now + ttl + HOUR)
      {
        KeySpaces("", tag, last);
        if tag != last {
          assert tag in most;
        } else if last !in most {
          forall t | t in most ensures TagKey(last) != TagKey(t) { KeySpaces("", last, t); }
        }
      }
      forall k | forall tag :: tag in tags ==> k != TagKey(tag)
        ensures (k in after <==> k in r) && (k in r ==> after[k] == r[k])
      {
        assert last in tags;
        assert forall tag :: tag in most ==> tag in tags;
      }
    }
  }

  /** A set with the tag must have a ttl close to that of every key last set with it. */
  ghost predicate CloseToLatest(latest: map<string, Latest>, tag: string, op: Op) {
    SetsWithTag(op, tag) ==>
      && op.ttl > 0
      && forall key :: key in latest && tag in latest[key].tags ==> latest[key].ttl <= op.ttl + HOUR
  }

  lemma SetKeepsListed(r: Redis, latest: map<string, Latest>, now: int, tag: string, op: Op, key: string)
    requires Sound(r, latest, now, tag) && op.Set? && CloseToLatest(latest, tag, op)
    ensures KeyListed(Apply(r, op, now), latest[op.key := Latest(op.tags, op.ttl)], now, tag, key)
  {
    var full := DataKey(op.key);
    var start := r[full := ValueFor(op.value, now, op.ttl)];
    TaggedSlots(start, full, op.tags, op.ttl, now);
    forall t ensures DataKey(key) != TagKey(t) && full != TagKey(t) {
      KeySpaces(key, t, "");
      KeySpaces(op.key, t, "");
    }
    KeySpaces(key, "", op.key);
    assert KeyListed(r, latest, now, tag, key);
    if tag in op.tags {
      assert SMembers(start, TagKey(tag), now) == SMembers(r, TagKey(tag), now);
    } else {
      forall t | t in op.tags ensures TagKey(tag) != TagKey(t) { KeySpaces("", tag, t); }
    }
  }

  lemma SetKeepsMembers(r: Redis, now: int, op: Op)
    requires MembersAreData(r) && op.Set?
    ensures MembersAreData(Apply(r, op, now))
  {
    var full := DataKey(op.key);
    var start := r[full := ValueFor(op.value, now, op.ttl)];
    var after := Apply(r, op, now);
    KeySpaces(op.key, "", "");
    TaggedSlots(start, full, op.tags, op.ttl, now);
    forall k | k in after && after[k].Members?
      ensures TAG_PREFIX <= k && forall m :: m in after[k].members ==> KEY_PREFIX <= m
    {
      if tag :| tag in op.tags && k == TagKey(tag) {
        assert SMembers(start, k, now) <= if k in r && r[k].Members? then r[k].members else {};
      } else {
        assert start[k] == after[k] && k in r && r[k] == after[k];
      }
    }
  }

  /** Time passing only makes keys expire. */
  lemma LaterIsSound(r: Redis, latest: map<string, Latest>, now: int, later: int, tag: string)
    requires Sound(r, latest, now, tag) && now <= later
    ensures Sound(r, latest, later, tag)
  {
    forall key ensures KeyListed(r, latest, later, tag, key) {
      assert KeyListed(r, latest, now, tag, key);
    }
  }

  /** Removing some data keys, and perhaps the tag's set with all its members, leaves the rest listed. */
  lemma RemovalIsSound(r: Redis, latest: map<string, Latest>, now: int, tag: string, gone: set<string>)
    requires Sound(r, latest, now, tag)
    requires TagKey(tag) in gone && Live(r, TagKey(tag), now) && r[TagKey(tag)].Members? ==>
             r[TagKey(tag)].members <= gone
    ensures Sound(r - gone, latest, now, tag)
  {
    forall key ensures KeyListed(r - gone, latest, now, tag, key) {
      assert KeyListed(r, latest, now, tag, key);
    }
  }

  /** Invalidating any tag, this one or another, keeps the keys of this tag listed. */
  lemma WithoutTagIsSound(r: Redis, latest: map<string, Latest>, now: int, tag: string, other: string)
    requires Sound(r, latest, now, tag)
    ensures Sound(WithoutTag(r, other, now), latest, now, tag)
    ensures forall key :: Live(WithoutTag(r, tag, now), DataKey(key), now) ==> tag !in LatestTags(latest, key)
  {
    var keys := SMembers(r, TagKey(other), now);
    KeySpaces("", tag, other);
    if keys != {} {
      assert r - keys - {TagKey(other)} == r - (keys + {TagKey(other)});
      RemovalIsSound(r, latest, now, tag, keys + {TagKey(other)});
    }
    forall key | Live(WithoutTag(r, tag, now), DataKey(key), now) ensures tag !in LatestTags(latest, key) {
      assert KeyListed(r, latest, now, tag, key);
    }
  }

  /** InvalidateTags misses no live key last set with a tag it names, if that tag's keys were listed. */
  lemma {:induction false} InvalidateMissesNone(r: Redis, latest: map<string, Latest>, now: int, tag: string,
                                                tags: seq<string>)
    requires Sound(r, latest, now, tag)
    ensures Sound(WithoutTags(r, tags, now), latest, now, tag)
    ensures tag in tags ==>
              forall key :: Live(WithoutTags(r, tags, now), DataKey(key), now) ==> tag !in LatestTags(latest, key)
    decreases |tags|
  {
    if tags != [] {
      var most, last := tags[..|tags| - 1], tags[|tags| - 1];
      InvalidateMissesNone(r, latest, now, tag, most);
      WithoutTagIsSound(WithoutTags(r, most, now), latest, now, tag, last);
      if tag != last && tag in tags {
        assert tag in most;
      }
    }
  }

  // ---------------------------------------------------------------------------
  // Every run
  // ---------------------------------------------------------------------------

  lemma RunSnoc(start: int, events: seq<Event>, e: Event)
    ensures Run(start, events + [e]) == Next(Run(start, events), e)
  {
    assert (events + [e])[..|events|] == events;
  }

  /** What is recorded of a key came from some set of the run. */
  ghost predicate FromRun(events: seq<Event>, l: Latest) {
    exists e :: e in events && e.op.Set? && e.op.tags == l.tags && e.op.ttl == l.ttl
  }

  ghost predicate RunInvariant(start: int, events: seq<Event>, tag: string) {
    var s := Run(start, events);
    && Sound(s.redis, s.latest, s.clock, tag)
    && forall key :: key in s.latest ==> FromRun(events, s.latest[key])
  }

  lemma StepIsSound(s: State, e: Event, tag: string)
    requires Sound(s.redis, s.latest, s.clock, tag) && s.clock <= e.at && CloseToLatest(s.latest, tag, e.op)
    ensures var s' := Next(s, e); Sound(s'.redis, s'.latest, s'.clock, tag)
  {
    LaterIsSound(s.redis, s.latest, s.clock, e.at, tag);
    match e.op
    case Set(_, _, _, _) =>
      SetKeepsMembers(s.redis, e.at, e.op);
      forall key ensures KeyListed(Next(s, e).redis, Next(s, e).latest, e.at, tag, key) {
        SetKeepsListed(s.redis, s.latest, e.at, tag, e.op, key);
      }
    case Delete(key) =>
      KeySpaces(key, tag, "");
      RemovalIsSound(s.redis, s.latest, e.at, tag, {DataKey(key)});
    case Flush =>
    case InvalidateTags(tags) =>
      InvalidateMissesNone(s.redis, s.latest, e.at, tag, tags);
    case InvalidateKeys(keys) =>
      forall k ensures TagKey(tag) != DataKey(k) { KeySpaces(k, tag, ""); }
      RemovalIsSound(s.redis, s.latest, e.at, tag, set k | k in keys :: DataKey(k));
  }

  /** In every timed run in which the ttls used with one tag are close, live keys of that tag stay
      listed, whatever the run did with other tags. */
  lemma {:induction false} EveryRunIsSound(start: int, events: seq<Event>, tag: string)
    requires ClockRuns(start, events) && CloseTtls(TtlsOf(events, tag))
    ensures RunInvariant(start, events, tag)
    ensures Run(start, events).clock == if events == [] then start else events[|events| - 1].at
    decreases |events|
  {
    hide Next, CloseTtls, RunInvariant, ClockRuns, TtlsOf;
    if events == [] {
      NothingIsSound(start, tag);
    } else {
      var before, e := events[..|events| - 1], events[|events| - 1];
      assert events == before + [e];
      CloseBefore(before, e, tag);
      ClockBefore(start, before, e);
      EveryRunIsSound(start, before, tag);
      OneMoreIsSound(start, before, e, tag);
      NextClock(Run(start, before), e);
    }
  }

  lemma ClockBefore(start: int, before: seq<Event>, e: Event)
    requires ClockRuns(start, before + [e])
    ensures ClockRuns(start, before) && (if before == [] then start else before[|before| - 1].at) <= e.at
  {
    var all := before + [e];
    assert all[|before|] == e && forall i :: 0 <= i < |before| ==> all[i] == before[i];
  }

  lemma NextClock(s: State, e: Event)
    ensures Next(s, e).clock == e.at
  {}

  lemma OneMoreIsSound(start: int, before: seq<Event>, e: Event, tag: string)
    requires RunInvariant(start, before, tag) && Run(start, before).clock <= e.at
    requires CloseTtls(TtlsOf(before + [e], tag))
    ensures RunInvariant(start, before + [e], tag)
  {
    hide Apply, CloseTtls, CloseToLatest, Sound, Run, TtlsOf;
    var s, events := Run(start, before), before + [e];
    RunSnoc(start, before, e);
    forall key | key in s.latest ensures FromRun(events, s.latest[key]) {
      assert FromRun(before, s.latest[key]);
      assert forall x :: x in before ==> x in events;
    }
    assert e in events;
    CloseInRun(events, s.latest, tag, e);
    StepIsSound(s, e, tag);
  }

  lemma NothingIsSound(start: int, tag: string)
    ensures RunInvariant(start, [], tag)
  {}

  lemma CloseBefore(before: seq<Event>, e: Event, tag: string)
    requires CloseTtls(TtlsOf(before + [e], tag))
    ensures CloseTtls(TtlsOf(before, tag))
  {
    assert forall x :: x in before ==> x in before + [e];
    assert TtlsOf(before, tag) <= TtlsOf(before + [e], tag);
  }

  lemma CloseInRun(events: seq<Event>, latest: map<string, Latest>, tag: string, e: Event)
    requires e in events && CloseTtls(TtlsOf(events, tag))
    requires forall key :: key in latest ==> FromRun(events, latest[key])
    ensures CloseToLatest(latest, tag, e.op)
  {
    if SetsWithTag(e.op, tag) {
      assert e.op.ttl in TtlsOf(events, tag);
      forall key | key in latest && tag in latest[key].tags ensures latest[key].ttl <= e.op.ttl + HOUR {
        assert FromRun(events, latest[key]);
        assert latest[key].ttl in TtlsOf(events, tag);
      }
    }
  }

  /** At every moment after the run, until the next operation, a live key last set with the tag is a
      member of the tag's live set; so an InvalidateTags that names the tag misses none of them. */
  lemma LiveKeysAreListed(start: int, events: seq<Event>, key: string, tag: string, now: int)
    requires ClockRuns(start, events) && CloseTtls(TtlsOf(events, tag)) && Run(start, events).clock <= now
    requires Live(Run(start, events).redis, DataKey(key), now)
    ensures var s := Run(start, events);
            && key in s.latest
            && (tag in s.latest[key].tags ==>
                  && Live(s.redis, TagKey(tag), now) && DataKey(key) in SMembers(s.redis, TagKey(tag), now)
                  && forall tags :: tag in tags ==> !Live(WithoutTags(s.redis, tags, now), DataKey(key), now))
  {
    EveryRunIsSound(start, events, tag);
    var s := Run(start, events);
    LaterIsSound(s.redis, s.latest, s.clock, now, tag);
    assert KeyListed(s.redis, s.latest, now, tag, key);
    forall tags: seq<string> | tag in s.latest[key].tags && tag in tags
      ensures !Live(WithoutTags(s.redis, tags, now), DataKey(key), now)
    {
      InvalidateMissesNone(s.redis, s.latest, now, tag, tags);
    }
  }

  // ---------------------------------------------------------------------------
  // Which ttls are safe
  // ---------------------------------------------------------------------------

  /** A live key last set with the tag that outlives an invalidation of the tag. */
  predicate Missed(s: State, tag: string, key: string, now: int) {
    tag in LatestTags(s.latest, key) && Live(WithoutTags(s.redis, [tag], now), DataKey(key), now)
  }

  ghost predicate CanMiss(tag: string, ttls: iset<int>) {
    exists start, events, key, now ::
      ClockRuns(start, events) && TtlsOf(events, tag) <= ttls && Run(start, events).clock <= now
      && Missed(Run(start, events), tag, key, now)
  }

  lemma OneTag(r: Redis, tag: string, now: int)
    ensures WithoutTags(r, [tag], now) == WithoutTag(r, tag, now)
  {
    assert [tag][..0] == [];
  }

  /** The hour is exact: with ttls further apart, the shorter one ends the tag set first. */
  lemma WiderTtlsMissAKey(tag: string, long: int, short: int)
    requires short > 0 && long > short + HOUR
    ensures var events := [Event(Set("a", [], [tag], long), 0), Event(Set("b", [], [tag], short), 0)];
            Run(0, events).clock == 0 && Missed(Run(0, events), tag, "a", short + HOUR)
  {
    var a, b := Event(Set("a", [], [tag], long), 0), Event(Set("b", [], [tag], short), 0);
    RunSnoc(0, [], a);
    RunSnoc(0, [a], b);
    assert [] + [a] == [a] && [a] + [b] == [a, b];
    var one, s := Run(0, [a]), Run(0, [a, b]);
    KeySpaces("a", tag, "b");
    KeySpaces("b", tag, "a");
    assert "a" != "b" && tag in [tag];
    TaggedSlots(map[DataKey("a") := Value([], At(long))], DataKey("a"), [tag], long, 0);
    TaggedSlots(one.redis[DataKey("b") := Value([], At(short))], DataKey("b"), [tag], short, 0);
    assert s.redis[TagKey(tag)].expires == short + HOUR;
    assert s.redis[DataKey("a")] == Value([], At(long));
    OneTag(s.redis, tag, short + HOUR);
  }

  /** A ttl that is not positive stores a value that never expires; its tag set does. */
  lemma UnexpiringKeyIsMissed(tag: string, ttl: int)
    requires ttl <= 0
    ensures var s := Run(0, [Event(Set("a", [], [tag], ttl), 0)]);
            s.clock == 0 && Missed(s, tag, "a", HOUR)
  {
    var a := Event(Set("a", [], [tag], ttl), 0);
    RunSnoc(0, [], a);
    assert [] + [a] == [a] && [tag][..0] == [];
    var s := Run(0, [a]);
    KeySpaces("a", tag, "");
    var start := map[DataKey("a") := Value([], Never)];
    assert s.redis == Tagged(start, DataKey("a"), [tag], ttl, 0);
    assert Tagged(start, DataKey("a"), [], ttl, 0) == start;
    assert s.redis == AddAndExpire(start, TagKey(tag), DataKey("a"), 0, ttl + HOUR);
    OneTag(s.redis, tag, HOUR);
  }

  /** Invalidating a tag can miss a key of it if and only if the ttls that may be used with the tag
      are not all positive and at most an hour apart. */
  lemma MissesIff(tag: string, ttls: iset<int>)
    ensures CanMiss(tag, ttls) <==> !CloseTtls(ttls)
  {
    if CloseTtls(ttls) {
      forall start, events, key, now
        | ClockRuns(start, events) && TtlsOf(events, tag) <= ttls && Run(start, events).clock <= now
        ensures !Missed(Run(start, events), tag, key, now)
      {
        NoneMissed(start, events, tag, key, now);
      }
    } else {
      var a, b :| a in ttls && b in ttls && !(0 < a <= b + HOUR);
      if a <= 0 || b <= 0 {
        var ttl := if a <= 0 then a else b;
        var events := [Event(Set("a", [], [tag], ttl), 0)];
        UnexpiringKeyIsMissed(tag, ttl);
        assert ClockRuns(0, events) && TtlsOf(events, tag) <= ttls && Missed(Run(0, events), tag, "a", HOUR);
      } else {
        var events := [Event(Set("a", [], [tag], a), 0), Event(Set("b", [], [tag], b), 0)];
        WiderTtlsMissAKey(tag, a, b);
        assert ClockRuns(0, events) && TtlsOf(events, tag) <= ttls && Missed(Run(0, events), tag, "a", b + HOUR);
      }
    }
  }

  lemma NoneMissed(start: int, events: seq<Event>, tag: string, key: string, now: int)
    requires ClockRuns(start, events) && CloseTtls(TtlsOf(events, tag)) && Run(start, events).clock <= now
    ensures !Missed(Run(start, events), tag, key, now)
  {
    var s := Run(start, events);
    EveryRunIsSound(start, events, tag);
    LaterIsSound(s.redis, s.latest, s.clock, now, tag);
    InvalidateMissesNone(s.redis, s.latest, now, tag, [tag]);
  }

  // ---------------------------------------------------------------------------
  // What a reader gets
  // ---------------------------------------------------------------------------

  ghost predicate LatestSet(events: seq<Event>, key: string, i: nat) {
    && i < |events| && events[i].op.Set? && events[i].op.key == key
    && forall j :: i < j < |events| ==> !(events[j].op.Set? && events[j].op.key == key)
  }

  /** Event `j` removes the key: by name, with everything, or as a live member of the set of a tag. */
  ghost predicate Removes(start: int, events: seq<Event>, key: string, j: nat)
    requires j < |events|
  {
    match events[j].op
    case Set(_, _, _, _) => false
    case Delete(k) => k == key
    case Flush => true
    case InvalidateKeys(keys) => key in keys
    case InvalidateTags(tags) =>
      exists tag :: tag in tags && DataKey(key) in SMembers(Run(start, events[..j]).redis, TagKey(tag), events[j].at)
  }

  ghost predicate IsKept(start: int, events: seq<Event>, key: string, i: nat) {
    forall j :: i < j < |events| ==> !Removes(start, events, key, j)
  }

  lemma {:induction false} WithoutTagsRemoves(r: Redis, tags: seq<string>, now: int, key: string)
    requires MembersAreData(r)
    ensures MembersAreData(WithoutTags(r, tags, now))
    ensures DataKey(key) in WithoutTags(r, tags, now) <==>
            DataKey(key) in r && forall tag :: tag in tags ==> DataKey(key) !in SMembers(r, TagKey(tag), now)
    ensures forall k :: k in WithoutTags(r, tags, now) ==> k in r && WithoutTags(r, tags, now)[k] == r[k]
    ensures forall tag :: tag !in tags ==>
            SMembers(WithoutTags(r, tags, now), TagKey(tag), now) == SMembers(r, TagKey(tag), now)
    decreases |tags|
  {
    if tags != [] {
      var most, last := tags[..|tags| - 1], tags[|tags| - 1];
      WithoutTagsRemoves(r, most, now, key);
      var before := WithoutTags(r, most, now);
      KeySpaces(key, last, "");
      forall tag ensures tag in tags <==> tag in most || tag == last { assert tags == most + [last]; }
      forall tag | tag !in tags
        ensures SMembers(WithoutTag(before, last, now), TagKey(tag), now) == SMembers(before, TagKey(tag), now) {
        KeySpaces("", tag, last);
      }
      assert DataKey(key) in SMembers(before, TagKey(last), now) ==> DataKey(key) in SMembers(r, TagKey(last), now);
    }
  }

  lemma StepKeepsMembers(s: State, e: Event)
    requires MembersAreData(s.redis)
    ensures MembersAreData(Next(s, e).redis)
  {
    match e.op
    case Set(_, _, _, _) => SetKeepsMembers(s.redis, e.at, e.op);
    case InvalidateTags(tags) => WithoutTagsRemoves(s.redis, tags, e.at, "");
    case _ =>
  }

  lemma {:induction false} EveryRunHasDataMembers(start: int, events: seq<Event>)
    ensures MembersAreData(Run(start, events).redis)
    decreases |events|
  {
    if events != [] {
      EveryRunHasDataMembers(start, events[..|events| - 1]);
      StepKeepsMembers(Run(start, events[..|events| - 1]), events[|events| - 1]);
    }
  }

  /** What one event does to the slot of a key. */
  lemma SlotAfter(s: State, e: Event, key: string)
    requires MembersAreData(s.redis)
    ensures var slot, after := DataKey(key), Next(s, e).redis;
            match e.op
            case Set(k, value, _, ttl) =>
              && (k == key ==> slot in after && after[slot] == Value(value, if ttl > 0 then At(e.at + ttl) else Never))
              && (k != key ==> (slot in after <==> slot in s.redis) && (slot in after ==> after[slot] == s.redis[slot]))
            case Delete(k) => slot in after <==> slot in s.redis && k != key
            case Flush => slot !in after
            case InvalidateKeys(keys) => slot in after <==> slot in s.redis && key !in keys
            case InvalidateTags(tags) => slot in after <==>
              slot in s.redis && forall tag :: tag in tags ==> slot !in SMembers(s.redis, TagKey(tag), e.at)
    ensures !e.op.Set? && DataKey(key) in Next(s, e).redis ==>
              DataKey(key) in s.redis && Next(s, e).redis[DataKey(key)] == s.redis[DataKey(key)]
  {
    match e.op
    case Set(k, value, tags, ttl) =>
      KeySpaces(key, "", k);
      forall tag ensures DataKey(key) != TagKey(tag) { KeySpaces(key, tag, ""); }
      TaggedSlots(s.redis[DataKey(k) := ValueFor(value, e.at, ttl)], DataKey(k), tags, ttl, e.at);
    case Delete(k) => KeySpaces(key, "", k);
    case Flush =>
    case InvalidateTags(tags) => WithoutTagsRemoves(s.redis, tags, e.at, key);
    case InvalidateKeys(keys) =>
      forall k ensures DataKey(k) == DataKey(key) ==> k == key { KeySpaces(k, "", key); }
  }

  lemma LastRemoves(start: int, events: seq<Event>, key: string)
    requires events != [] && !(events[|events| - 1].op.Set? && events[|events| - 1].op.key == key)
    ensures var n := |events| - 1;
            var before, after := Run(start, events[..n]).redis, Run(start, events).redis;
            && (DataKey(key) in after <==> DataKey(key) in before && !Removes(start, events, key, n))
            && (DataKey(key) in after ==> after[DataKey(key)] == before[DataKey(key)])
  {
    hide Next, SMembers;
    var before, e := events[..|events| - 1], events[|events| - 1];
    EveryRunHasDataMembers(start, before);
    SlotAfter(Run(start, before), e, key);
  }

  /** What a read gets of the latest set. */
  ghost function LatestRead(start: int, events: seq<Event>, i: nat, key: string, now: int): Option<Bytes>
    requires LatestSet(events, key, i)
  {
    var e := events[i];
    if IsKept(start, events, key, i) && (e.op.ttl <= 0 || now < e.at + e.op.ttl) then Some(e.op.value) else None
  }

  /** A key is stored, as its latest set stored it, if and only if nothing removed it since. */
  lemma {:induction false} StoredIff(start: int, events: seq<Event>, key: string, i: nat)
    requires LatestSet(events, key, i)
    ensures var r, op := Run(start, events).redis, events[i].op;
            && (DataKey(key) in r <==> IsKept(start, events, key, i))
            && (DataKey(key) in r ==>
                  r[DataKey(key)] == Value(op.value, if op.ttl > 0 then At(events[i].at + op.ttl) else Never))
    decreases |events|
  {
    hide Next, SMembers;
    var n := |events| - 1;
    var before, e := events[..n], events[n];
    EveryRunHasDataMembers(start, before);
    SlotAfter(Run(start, before), e, key);
    if i < n {
      assert LatestSet(before, key, i);
      StoredIff(start, before, key, i);
      LastRemoves(start, events, key);
      forall j | i < j < n ensures Removes(start, before, key, j) == Removes(start, events, key, j) {
        assert before[..j] == events[..j];
      }
    }
  }

  lemma {:induction false} NeverSet(start: int, events: seq<Event>, key: string)
    requires forall e :: e in events ==> !(e.op.Set? && e.op.key == key)
    ensures DataKey(key) !in Run(start, events).redis
    decreases |events|
  {
    if events != [] {
      var before, e := events[..|events| - 1], events[|events| - 1];
      assert e in events;
      EveryRunHasDataMembers(start, before);
      NeverSet(start, before, key);
      SlotAfter(Run(start, before), e, key);
    }
  }

  // ---------------------------------------------------------------------------
  // The cache object
  // ---------------------------------------------------------------------------

  function LiveData(r: Redis, now: int): set<string> {
    set k | k in r && KEY_PREFIX <= k && Live(r, k, now)
  }

  lemma UnlinkDrop(r: Redis, tag: string, now: int)
    requires MembersAreData(r)
    ensures var keys := SMembers(r, TagKey(tag), now);
            |LiveData(WithoutTag(r, tag, now), now)| + Unlinked(r, keys, now) == |LiveData(r, now)|
    ensures MembersAreData(WithoutTag(r, tag, now))
  {
    var keys := SMembers(r, TagKey(tag), now);
    var hit := set k | k in keys && Live(r, k, now);
    if keys == {} {
      assert hit == {};
    } else {
      LiveSplit(r, tag, now, keys);
      assert LiveData(WithoutTag(r, tag, now), now) !! hit;
    }
  }

  lemma LiveSplit(r: Redis, tag: string, now: int, keys: set<string>)
    requires MembersAreData(r) && keys == SMembers(r, TagKey(tag), now) && keys != {}
    ensures LiveData(r, now) == LiveData(WithoutTag(r, tag, now), now) + set k | k in keys && Live(r, k, now)
  {
    KeySpaces("", tag, "");
    forall k ensures k in LiveData(r, now) <==>
                     k in LiveData(WithoutTag(r, tag, now), now) || (k in keys && Live(r, k, now)) {}
  }

  class RedisCache {
    var db: Redis

    /** Tag sets list data keys only, which is what lets the unlink count be exact. */
    ghost predicate Valid()
      reads this
    {
      MembersAreData(db)
    }

    constructor ()
      ensures Valid() && db == map[]
    {
      db := map[];
    }

    /** The value of the latest set of the key, unless something removed it or its ttl has run out since. */
    method Get(key: string, now: int) returns (value: Option<Bytes>)
      ensures value == if Live(db, DataKey(key), now) && db[DataKey(key)].Value? then Some(db[DataKey(key)].value)
              else None
      ensures forall start: int, events: seq<Event>, i: nat ::
                db == Run(start, events).redis && LatestSet(events, key, i) ==>
                  value == LatestRead(start, events, i, key, now)
      ensures forall start: int, events: seq<Event> ::
                db == Run(start, events).redis && (forall e :: e in events ==> !(e.op.Set? && e.op.key == key)) ==>
                  value == None
    {
      forall start: int, events: seq<Event>, i: nat | db == Run(start, events).redis && LatestSet(events, key, i)
        ensures DataKey(key) in db <==> IsKept(start, events, key, i)
        ensures DataKey(key) in db ==>
                  db[DataKey(key)] == Value(events[i].op.value,
                    if events[i].op.ttl > 0 then At(events[i].at + events[i].op.ttl) else Never)
      {
        StoredIff(start, events, key, i);
      }
      forall start: int, events: seq<Event>
        | db == Run(start, events).redis && (forall e :: e in events ==> !(e.op.Set? && e.op.key == key))
        ensures DataKey(key) !in db
      {
        NeverSet(start, events, key);
      }
      var full := KEY_PREFIX + key;
      if Live(db, full, now) && db[full].Value? {
        return Some(db[full].value);
      }
      return None;
    }

    method SetWithTags(key: string, value: Bytes, tags: seq<string>, ttl: int, now: int)
      requires Valid()
      modifies this
      ensures Valid() && db == Apply(old(db), Set(key, value, tags, ttl), now)
    {
      var fullKey := KEY_PREFIX + key;
      SetKeepsMembers(db, now, Set(key, value, tags, ttl));
      db := db[fullKey := ValueFor(value, now, ttl)];
      ghost var start := db;
      for i := 0 to |tags|
        invariant db == Tagged(start, DataKey(key), tags[..i], ttl, now)
      {
        assert tags[..i + 1][..i] == tags[..i];
        db := AddAndExpire(db, TagKey(tags[i]), fullKey, now, ttl + HOUR);
      }
      assert tags[..|tags|] == tags;
    }

    method Delete(key: string)
      requires Valid()
      modifies this
      ensures Valid() && db == Apply(old(db), Op.Delete(key), 0)
    {
      db := db - {KEY_PREFIX + key};
    }

    /** Returns exactly how many live values went. */
    method InvalidateTags(tags: seq<string>, now: int) returns (total: nat)
      requires Valid()
      modifies this
      ensures Valid() && db == Apply(old(db), Op.InvalidateTags(tags), now)
      ensures total == |LiveData(old(db), now)| - |LiveData(db, now)|
    {
      total := 0;
      for i := 0 to |tags|
        invariant Valid() && db == WithoutTags(old(db), tags[..i], now)
        invariant total == |LiveData(old(db), now)| - |LiveData(db, now)|
      {
        assert tags[..i + 1][..i] == tags[..i];
        UnlinkDrop(db, tags[i], now);
        var keys := SMembers(db, TagKey(tags[i]), now);
        if keys != {} {
          total := total + Unlinked(db, keys, now);
          db := db - keys - {TagKey(tags[i])};
        }
      }
      assert tags[..|tags|] == tags;
    }
  }
}
