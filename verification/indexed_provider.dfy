/** A wrapper that keeps, beside the wrapped cache's own tag sets, a list of keys per tag
    stored in the same key space under "cache_index:<tag>". */
module IndexedProviders {
  import opened Options
  import opened LocalCaches

  const INDEX_PREFIX := "cache_index:"
  const INDEX_GRACE := 60_000_000_000

  function IndexKey(tag: string): string {
    INDEX_PREFIX + tag
  }

  predicate InNamespace(key: string) {
    INDEX_PREFIX <= key
  }

  // ---------------------------------------------------------------------------
  // What each operation does to the wrapped cache
  // ---------------------------------------------------------------------------

  function ReadIndex(c: Cache, tag: string, now: int): seq<string> {
    var data := Lookup(c, IndexKey(tag), now);
    if data.Some? && data.value.KeyList? then data.value.keys else []
  }

  function AddToIndex(c: Cache, key: string, tag: string, ttl: int, now: int): Cache {
    var keys := ReadIndex(c, tag, now);
    if key in keys then c else Stored(c, IndexKey(tag), KeyList(keys + [key]), [], ttl + INDEX_GRACE, now)
  }

  function AddToIndexes(c: Cache, key: string, names: seq<string>, ttl: int, now: int): Cache
    decreases |names|
  {
    if names == [] then c
    else AddToIndex(AddToIndexes(c, key, names[..|names| - 1], ttl, now), key, names[|names| - 1], ttl, now)
  }

  function KeySet(keys: seq<string>): set<string> {
    set k | k in keys
  }

  function DropIndex(c: Cache, tag: string, now: int): Cache {
    c.(entries := c.entries - KeySet(ReadIndex(c, tag, now)) - {IndexKey(tag)})
  }

  function DropIndexes(c: Cache, names: seq<string>, now: int): Cache
    decreases |names|
  {
    if names == [] then c else DropIndex(DropIndexes(c, names[..|names| - 1], now), names[|names| - 1], now)
  }

  /** How many keys the indexes list as they are dropped one after the other. */
  function ListedCount(c: Cache, names: seq<string>, now: int): nat
    decreases |names|
  {
    if names == [] then 0
    else
      var most, last := names[..|names| - 1], names[|names| - 1];
      ListedCount(c, most, now) + |ReadIndex(DropIndexes(c, most, now), last, now)|
  }

  function IndexedApply(c: Cache, op: Op): Cache {
    match op
    case Set(key, value, names, ttl, now) => AddToIndexes(Stored(c, key, value, names, ttl, now), key, names, ttl, now)
    case InvalidateTags(names, now) => Invalidated(DropIndexes(c, names, now), names)
    case _ => Apply(c, op)
  }

  function IndexedRun(ops: seq<Op>): Cache
    decreases |ops|
  {
    if ops == [] then EMPTY else IndexedApply(IndexedRun(ops[..|ops| - 1]), ops[|ops| - 1])
  }

  // ---------------------------------------------------------------------------
  // The wrapped cache shows what the plain cache would
  // ---------------------------------------------------------------------------

  /** Callers store no value of their own in the index namespace. */
  ghost predicate CallerKeys(ops: seq<Op>) {
    forall i :: 0 <= i < |ops| && ops[i].Set? ==> !InNamespace(ops[i].key)
  }

  ghost predicate SameOutside(plain: Cache, inner: Cache) {
    && plain.tags == inner.tags
    && forall k :: !InNamespace(k) ==>
         && (k in plain.entries <==> k in inner.entries)
         && (k in plain.entries ==> plain.entries[k] == inner.entries[k])
  }

  /** Every stored index lists only keys of the inner tag set. */
  ghost predicate IndexWithin(c: Cache, tag: string) {
    IndexKey(tag) in c.entries && c.entries[IndexKey(tag)].value.KeyList? ==>
      forall k :: k in c.entries[IndexKey(tag)].value.keys ==> Holds(c.tags, tag, k)
  }

  ghost predicate Sound(c: Cache) {
    && (forall tag :: IndexWithin(c, tag))
    && (forall tag, k :: Holds(c.tags, tag, k) ==> !InNamespace(k))
  }

  lemma IndexKeyInjective(s: string, t: string)
    ensures InNamespace(IndexKey(s))
    ensures IndexKey(s) == IndexKey(t) ==> s == t
  {
    assert IndexKey(s)[|INDEX_PREFIX|..] == s && IndexKey(t)[|INDEX_PREFIX|..] == t;
  }

  lemma ReadIndexWithin(c: Cache, tag: string, now: int, k: string)
    requires Sound(c) && k in ReadIndex(c, tag, now)
    ensures Holds(c.tags, tag, k) && !InNamespace(k)
  {
    assert IndexWithin(c, tag);
  }

  lemma StoredKeeps(plain: Cache, inner: Cache, key: string, value: Data, names: seq<string>, ttl: int, now: int)
    requires SameOutside(plain, inner) && Sound(inner) && !InNamespace(key)
    ensures SameOutside(Stored(plain, key, value, names, ttl, now), Stored(inner, key, value, names, ttl, now))
    ensures Sound(Stored(inner, key, value, names, ttl, now))
    ensures forall tag :: tag in names ==> Holds(Stored(inner, key, value, names, ttl, now).tags, tag, key)
  {
    var after := Stored(inner, key, value, names, ttl, now);
    forall tag ensures IndexWithin(after, tag) {
      IndexKeyInjective(tag, tag);
      assert IndexWithin(inner, tag);
      assert forall k :: Holds(inner.tags, tag, k) ==> Holds(after.tags, tag, k);
    }
    forall tag, k | Holds(after.tags, tag, k) ensures !InNamespace(k) {
      assert k == key || Holds(inner.tags, tag, k);
    }
  }

  lemma AddToIndexKeeps(plain: Cache, inner: Cache, key: string, tag: string, ttl: int, now: int)
    requires SameOutside(plain, inner) && Sound(inner) && Holds(inner.tags, tag, key)
    ensures SameOutside(plain, AddToIndex(inner, key, tag, ttl, now))
    ensures Sound(AddToIndex(inner, key, tag, ttl, now))
  {
    var keys := ReadIndex(inner, tag, now);
    var after := AddToIndex(inner, key, tag, ttl, now);
    RegisterNothing(inner.tags, IndexKey(tag));
    IndexKeyInjective(tag, tag);
    forall t ensures IndexWithin(after, t) {
      IndexKeyInjective(t, tag);
      assert IndexWithin(inner, t);
      if t == tag && key !in keys {
        forall k | k in keys + [key] ensures Holds(inner.tags, tag, k) {
          if k in keys { ReadIndexWithin(inner, tag, now, k); }
        }
      }
    }
  }

  lemma {:induction false} AddToIndexesKeeps(plain: Cache, inner: Cache, key: string, names: seq<string>, ttl: int,
                                             now: int)
    requires SameOutside(plain, inner) && Sound(inner)
    requires forall tag :: tag in names ==> Holds(inner.tags, tag, key)
    ensures SameOutside(plain, AddToIndexes(inner, key, names, ttl, now))
    ensures Sound(AddToIndexes(inner, key, names, ttl, now))
    decreases |names|
  {
    if names != [] {
      var most := names[..|names| - 1];
      AddToIndexesKeeps(plain, inner, key, most, ttl, now);
      AddToIndexKeeps(plain, AddToIndexes(inner, key, most, ttl, now), key, names[|names| - 1], ttl, now);
    }
  }

  /** `inner` lacks, outside the namespace, only keys the tag sets of `names` hold. */
  ghost predicate LacksOnly(plain: Cache, inner: Cache, names: seq<string>) {
    && plain.tags == inner.tags
    && forall k :: !InNamespace(k) ==>
         && (k in inner.entries ==> k in plain.entries && plain.entries[k] == inner.entries[k])
         && (k in plain.entries && k !in inner.entries ==> exists tag :: tag in names && Holds(plain.tags, tag, k))
  }

  lemma DropIndexKeeps(plain: Cache, inner: Cache, names: seq<string>, tag: string, now: int)
    requires LacksOnly(plain, inner, names) && Sound(inner) && tag in names
    ensures LacksOnly(plain, DropIndex(inner, tag, now), names) && Sound(DropIndex(inner, tag, now))
    ensures IndexKey(tag) !in DropIndex(inner, tag, now).entries
  {
    var after := DropIndex(inner, tag, now);
    forall k | k in ReadIndex(inner, tag, now) ensures Holds(plain.tags, tag, k) {
      ReadIndexWithin(inner, tag, now, k);
    }
    forall t ensures IndexWithin(after, t) {
      assert IndexWithin(inner, t);
    }
  }

  lemma {:induction false} DropIndexesKeeps(plain: Cache, inner: Cache, names: seq<string>, done: seq<string>, now: int)
    requires LacksOnly(plain, inner, names) && Sound(inner) && forall tag :: tag in done ==> tag in names
    ensures LacksOnly(plain, DropIndexes(inner, done, now), names) && Sound(DropIndexes(inner, done, now))
    ensures forall tag :: tag in done ==> IndexKey(tag) !in DropIndexes(inner, done, now).entries
    decreases |done|
  {
    if done != [] {
      var most := done[..|done| - 1];
      DropIndexesKeeps(plain, inner, names, most, now);
      DropIndexKeeps(plain, DropIndexes(inner, most, now), names, done[|done| - 1], now);
    }
  }

  lemma InvalidatedKeeps(plain: Cache, inner: Cache, names: seq<string>, now: int)
    requires SameOutside(plain, inner) && Sound(inner)
    ensures SameOutside(Invalidated(plain, names), Invalidated(DropIndexes(inner, names, now), names))
    ensures Sound(Invalidated(DropIndexes(inner, names, now), names))
  {
    DropIndexesKeeps(plain, inner, names, names, now);
    var dropped := DropIndexes(inner, names, now);
    var after := Invalidated(dropped, names);
    forall k | !InNamespace(k)
      ensures k in Invalidated(plain, names).entries <==> k in after.entries
    {
      assert k in KeysUnder(plain.tags, names) <==> exists tag :: tag in names && Holds(plain.tags, tag, k);
    }
    forall tag ensures IndexWithin(after, tag) {
      assert IndexWithin(dropped, tag);
      assert tag !in names ==> forall k :: Holds(dropped.tags, tag, k) ==> Holds(after.tags, tag, k);
    }
    forall tag, k | Holds(after.tags, tag, k) ensures !InNamespace(k) {
      assert Holds(dropped.tags, tag, k);
    }
  }

  lemma StepKeeps(plain: Cache, inner: Cache, op: Op)
    requires SameOutside(plain, inner) && Sound(inner) && (op.Set? ==> !InNamespace(op.key))
    ensures SameOutside(Apply(plain, op), IndexedApply(inner, op)) && Sound(IndexedApply(inner, op))
  {
    match op
    case Set(key, value, names, ttl, now) =>
      StoredKeeps(plain, inner, key, value, names, ttl, now);
      AddToIndexesKeeps(Stored(plain, key, value, names, ttl, now), Stored(inner, key, value, names, ttl, now), key,
        names, ttl, now);
    case InvalidateTags(names, now) =>
      InvalidatedKeeps(plain, inner, names, now);
    case _ =>
      forall tag ensures IndexWithin(Apply(inner, op), tag) { assert IndexWithin(inner, tag); }
  }

  /** In every run the wrapped cache agrees with the plain cache outside the index namespace,
      and the index of each tag stays within the inner tag set. */
  lemma {:induction false} IndexedRunAgrees(ops: seq<Op>)
    requires CallerKeys(ops)
    ensures SameOutside(Run(ops), IndexedRun(ops)) && Sound(IndexedRun(ops))
    decreases |ops|
  {
    if ops != [] {
      var before := ops[..|ops| - 1];
      assert CallerKeys(before);
      IndexedRunAgrees(before);
      StepKeeps(Run(before), IndexedRun(before), ops[|ops| - 1]);
    }
  }

  /** What a reader sees, at any moment after any run. */
  lemma IndexedReadsAgree(ops: seq<Op>, key: string, now: int)
    requires CallerKeys(ops) && !InNamespace(key)
    ensures Lookup(IndexedRun(ops), key, now) == Lookup(Run(ops), key, now)
  {
    IndexedRunAgrees(ops);
  }

  lemma RunsSnoc(ops: seq<Op>, op: Op)
    ensures Run(ops + [op]) == Apply(Run(ops), op) && IndexedRun(ops + [op]) == IndexedApply(IndexedRun(ops), op)
  {
    assert (ops + [op])[..|ops|] == ops;
  }

  lemma UntaggedSet(ops: seq<Op>, key: string, value: Data)
    requires Run(ops) == IndexedRun(ops)
    ensures var after := ops + [Op.Set(key, value, [], 0, 1)];
            Run(after) == IndexedRun(after) == Run(ops).(entries := Run(ops).entries[key := Entry(value, 0)])
  {
    RunsSnoc(ops, Op.Set(key, value, [], 0, 1));
    RegisterNothing(Run(ops).tags, key);
  }

  function ForgedIndex(tag: string, victim: string): Op {
    Op.Set(IndexKey(tag), KeyList([victim]), [], 0, 1)
  }

  lemma ForgedRuns(tag: string, victim: string)
    requires !InNamespace(victim)
    ensures var ops := [ForgedIndex(tag, victim), Op.Set(victim, Raw([1]), [], 0, 1)];
            && Run(ops) == IndexedRun(ops) && Run(ops).tags == map[]
            && ReadIndex(Run(ops), tag, 1) == [victim] && Lookup(Run(ops), victim, 1) == Some(Raw([1]))
  {
    hide Stored, Apply, IndexedApply, AddToIndexes;
    UntaggedSet([], IndexKey(tag), KeyList([victim]));
    UntaggedSet([ForgedIndex(tag, victim)], victim, Raw([1]));
    assert [] + [ForgedIndex(tag, victim)] == [ForgedIndex(tag, victim)];
    assert [ForgedIndex(tag, victim)] + [Op.Set(victim, Raw([1]), [], 0, 1)] ==
           [ForgedIndex(tag, victim), Op.Set(victim, Raw([1]), [], 0, 1)];
  }

  /** The condition on callers matters: a list written over an index deletes a stranger's key. */
  lemma NamespaceWriteBreaks(tag: string, victim: string)
    requires !InNamespace(victim)
    ensures var ops := [ForgedIndex(tag, victim), Op.Set(victim, Raw([1]), [], 0, 1), Op.InvalidateTags([tag], 1)];
            Lookup(Run(ops), victim, 1) == Some(Raw([1])) && Lookup(IndexedRun(ops), victim, 1) == None
  {
    var before := [ForgedIndex(tag, victim), Op.Set(victim, Raw([1]), [], 0, 1)];
    var last := Op.InvalidateTags([tag], 1);
    ForgedRuns(tag, victim);
    RunsSnoc(before, last);
    assert before + [last] == [before[0], before[1], last];
    var c := Run(before);
    assert KeysUnder(c.tags, [tag]) == {};
    assert [tag][..0] == [] && DropIndexes(c, [tag], 1) == DropIndex(c, tag, 1);
  }

  ghost predicate StoresOnly(ops: seq<Op>, keys: iset<string>) {
    forall op :: op in ops && op.Set? ==> op.key in keys
  }

  /** No run that stores only these keys can tell the wrapped cache from the plain one by a read
      outside the namespace. */
  ghost predicate Transparent(keys: iset<string>) {
    forall ops: seq<Op>, key, now :: StoresOnly(ops, keys) && !InNamespace(key) ==>
      Lookup(IndexedRun(ops), key, now) == Lookup(Run(ops), key, now)
  }

  ghost predicate AllInNamespace(c: Cache) {
    forall k :: k in c.entries ==> InNamespace(k)
  }

  lemma {:induction false} AddToIndexesInNamespace(c: Cache, key: string, names: seq<string>, ttl: int, now: int)
    requires AllInNamespace(c)
    ensures AllInNamespace(AddToIndexes(c, key, names, ttl, now))
    decreases |names|
  {
    if names != [] {
      AddToIndexesInNamespace(c, key, names[..|names| - 1], ttl, now);
      IndexKeyInjective(names[|names| - 1], "");
    }
  }

  lemma {:induction false} DropIndexesInNamespace(c: Cache, names: seq<string>, now: int)
    requires AllInNamespace(c)
    ensures AllInNamespace(DropIndexes(c, names, now))
    decreases |names|
  {
    if names != [] { DropIndexesInNamespace(c, names[..|names| - 1], now); }
  }

  lemma {:induction false} RunsInNamespace(ops: seq<Op>)
    requires StoresOnly(ops, iset key | InNamespace(key))
    ensures AllInNamespace(Run(ops)) && AllInNamespace(IndexedRun(ops))
    decreases |ops|
  {
    if ops != [] {
      var most, op := ops[..|ops| - 1], ops[|ops| - 1];
      RunsInNamespace(most);
      match op
      case Set(key, value, names, ttl, now) =>
        AddToIndexesInNamespace(Stored(IndexedRun(most), key, value, names, ttl, now), key, names, ttl, now);
      case InvalidateTags(names, now) =>
        DropIndexesInNamespace(IndexedRun(most), names, now);
      case _ =>
    }
  }

  /** The index shows exactly when callers store keys both inside and outside its namespace. */
  lemma TransparentIff(keys: iset<string>)
    ensures Transparent(keys) <==>
            (forall k :: k in keys ==> !InNamespace(k)) || (forall k :: k in keys ==> InNamespace(k))
  {
    if forall k :: k in keys ==> !InNamespace(k) {
      forall ops: seq<Op>, key, now | StoresOnly(ops, keys) && !InNamespace(key)
        ensures Lookup(IndexedRun(ops), key, now) == Lookup(Run(ops), key, now)
      {
        assert forall i :: 0 <= i < |ops| ==> ops[i] in ops;
        IndexedReadsAgree(ops, key, now);
      }
    } else if forall k :: k in keys ==> InNamespace(k) {
      forall ops: seq<Op>, key, now | StoresOnly(ops, keys) && !InNamespace(key)
        ensures Lookup(IndexedRun(ops), key, now) == Lookup(Run(ops), key, now)
      {
        RunsInNamespace(ops);
      }
    } else {
      var inside, victim :| inside in keys && InNamespace(inside) && victim in keys && !InNamespace(victim);
      var tag := inside[|INDEX_PREFIX|..];
      assert IndexKey(tag) == inside;
      var ops := [ForgedIndex(tag, victim), Op.Set(victim, Raw([1]), [], 0, 1), Op.InvalidateTags([tag], 1)];
      NamespaceWriteBreaks(tag, victim);
      assert StoresOnly(ops, keys);
    }
  }

  // ---------------------------------------------------------------------------
  // What the index says
  // ---------------------------------------------------------------------------

  /** What one more entry for the tag comes to: a reader finds the key in the list, once added and at
      its end, for a minute longer than its own ttl; nothing else has changed. */
  ghost predicate OneListed(before: Cache, after: Cache, key: string, tag: string, ttl: int, now: int) {
    var at, list := "cache_index:" + tag, ReadIndex(before, tag, now);
    && ReadIndex(after, tag, now) == (if key in list then list else list + [key])
    && (key !in list ==>
          && at in after.entries
          && after.entries[at].expiration == if ttl + 60_000_000_000 > 0 then now + ttl + 60_000_000_000 else 0)
    && (key in list ==> after == before)
    && after.tags == before.tags
    && forall k :: k != at ==>
         (k in after.entries <==> k in before.entries) && (k in after.entries ==> after.entries[k] == before.entries[k])
  }

  lemma AddToIndexLists(c: Cache, key: string, tag: string, ttl: int, now: int)
    ensures OneListed(c, AddToIndex(c, key, tag, ttl, now), key, tag, ttl, now)
  {
    RegisterNothing(c.tags, IndexKey(tag));
  }

  /** After a set the key is in the list of each of its tags. */
  lemma {:induction false} SetIsListed(c: Cache, key: string, names: seq<string>, ttl: int, now: int, tag: string)
    requires tag in names
    ensures key in ReadIndex(AddToIndexes(c, key, names, ttl, now), tag, now)
    decreases |names|
  {
    hide ReadIndex, AddToIndex;
    var most, last := names[..|names| - 1], names[|names| - 1];
    AddToIndexLists(AddToIndexes(c, key, most, ttl, now), key, last, ttl, now);
    if tag != last {
      SetIsListed(c, key, most, ttl, now, tag);
      OtherListStays(AddToIndexes(c, key, most, ttl, now), key, last, tag, ttl, now);
    }
  }

  lemma OtherListStays(c: Cache, key: string, last: string, tag: string, ttl: int, now: int)
    requires tag != last
    ensures ReadIndex(AddToIndex(c, key, last, ttl, now), tag, now) == ReadIndex(c, tag, now)
  {
    IndexKeyInjective(tag, last);
    AddToIndexLists(c, key, last, ttl, now);
  }

  // ---------------------------------------------------------------------------
  // The provider object
  // ---------------------------------------------------------------------------

  class IndexedProvider {
    const inner: LocalCache

    constructor (underlying: LocalCache)
      ensures inner == underlying
    {
      inner := underlying;
    }

    ghost function Contents(): Cache
      reads inner
    {
      inner.Contents()
    }

    method Get(key: string, now: int) returns (value: Option<Data>)
      ensures value == Lookup(Contents(), key, now)
    {
      value := inner.Get(key, now);
    }

    method SetWithTags(key: string, value: Data, names: seq<string>, ttl: int, now: int)
      modifies inner
      ensures Contents() == IndexedApply(old(Contents()), Set(key, value, names, ttl, now))
      ensures forall tag :: tag in names ==> key in ReadIndex(Contents(), tag, now)
    {
      inner.SetWithTags(key, value, names, ttl, now);
      ghost var start := Contents();
      for i := 0 to |names|
        invariant Contents() == AddToIndexes(start, key, names[..i], ttl, now)
      {
        assert names[..i + 1][..i] == names[..i];
        IndexOne(key, names[i], ttl, now);
      }
      assert names[..|names|] == names;
      forall tag | tag in names ensures key in ReadIndex(Contents(), tag, now) {
        SetIsListed(start, key, names, ttl, now, tag);
      }
    }

    /** One round of the indexing loop. */
    method IndexOne(key: string, tag: string, ttl: int, now: int)
      modifies inner
      ensures Contents() == AddToIndex(old(Contents()), key, tag, ttl, now)
      ensures OneListed(old(Contents()), Contents(), key, tag, ttl, now)
    {
      AddToIndexLists(Contents(), key, tag, ttl, now);
      var keys: seq<string> := [];
      var data := inner.Get(IndexKey(tag), now);
      if data.Some? && data.value.KeyList? {
        keys := data.value.keys;
      }
      var found := false;
      for i := 0 to |keys|
        invariant found <==> key in keys[..i]
      {
        if keys[i] == key {
          found := true;
        }
      }
      if !found {
        inner.SetWithTags(IndexKey(tag), KeyList(keys + [key]), [], ttl + INDEX_GRACE, now);
      }
    }

    method Delete(key: string)
      modifies inner
      ensures Contents() == IndexedApply(old(Contents()), Op.Delete(key))
    {
      inner.Delete(key);
    }

    method Flush()
      modifies inner
      ensures Contents() == EMPTY
    {
      inner.Flush();
    }

    method InvalidatePattern(pattern: string) returns (deleted: nat)
      modifies inner
      ensures Contents() == IndexedApply(old(Contents()), Op.InvalidatePattern(pattern))
    {
      deleted := inner.InvalidatePattern(pattern);
    }

    /** Deletes by the index, then by the inner tag sets; the count returned is the larger of
        what the indexes listed and what the inner call then removed. */
    method InvalidateTags(names: seq<string>, now: int) returns (total: nat)
      modifies inner
      ensures Contents() == IndexedApply(old(Contents()), Op.InvalidateTags(names, now))
      ensures var removed := |DropIndexes(old(Contents()), names, now).entries| - |Contents().entries|;
              total == if removed > ListedCount(old(Contents()), names, now) then removed
                else ListedCount(old(Contents()), names, now)
    {
      hide DropIndex, ReadIndex, Invalidated;
      total := 0;
      ghost var start := Contents();
      for i := 0 to |names|
        invariant Contents() == DropIndexes(start, names[..i], now)
        invariant total == ListedCount(start, names[..i], now)
      {
        assert names[..i + 1][..i] == names[..i];
        var n := DropOneIndex(names[i], now);
        total := total + n;
      }
      assert names[..|names|] == names;
      var underlying := inner.InvalidateTags(names);
      if underlying > total {
        total := underlying;
      }
    }

    /** One round of InvalidateTags: the listed keys, then the list. */
    method DropOneIndex(tag: string, now: int) returns (n: nat)
      modifies inner
      ensures Contents() == DropIndex(old(Contents()), tag, now)
      ensures n == |ReadIndex(old(Contents()), tag, now)|
      ensures forall k :: k in Contents().entries <==>
                k in old(Contents()).entries && k !in ReadIndex(old(Contents()), tag, now) && k != "cache_index:" + tag
      ensures forall k :: k in Contents().entries ==> Contents().entries[k] == old(Contents()).entries[k]
    {
      var keys: seq<string> := [];
      var data := inner.Get(IndexKey(tag), now);
      if data.Some? && data.value.KeyList? {
        keys := data.value.keys;
      }
      n := 0;
      ghost var start := Contents();
      assert start.entries - {} == start.entries;
      for i := 0 to |keys|
        invariant n == i
        invariant Contents() == start.(entries := start.entries - KeySet(keys[..i]))
      {
        inner.Delete(keys[i]);
        assert KeySet(keys[..i + 1]) == KeySet(keys[..i]) + {keys[i]};
        n := n + 1;
      }
      assert keys[..|keys|] == keys;
      inner.Delete(IndexKey(tag));
    }
  }
}
