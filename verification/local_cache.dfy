/** The in-process cache: entries with expirations, and for each tag the set of keys registered under it. */
module LocalCaches {
  import opened Options
  import opened Text

  /** A stored value: opaque bytes, or the JSON text of a list of keys. */
  datatype Data = Raw(bytes: seq<int>) | KeyList(keys: seq<string>)

  /** `expiration` is in nanoseconds; 0 means the entry never expires. */
  datatype Entry = Entry(value: Data, expiration: int)

  type TagSets = map<string, set<string>>

  datatype Cache = Cache(entries: map<string, Entry>, tags: TagSets)

  const EMPTY := Cache(map[], map[])

  datatype Op =
    | Set(key: string, value: Data, tags: seq<string>, ttl: int, now: int)
    | Delete(key: string)
    | Flush
    | InvalidateTags(tags: seq<string>, now: int)
    | InvalidatePattern(pattern: string)
    | Cleanup(now: int)

  // ---------------------------------------------------------------------------
  // What each operation does
  // ---------------------------------------------------------------------------

  predicate Expired(e: Entry, now: int) {
    e.expiration > 0 && now > e.expiration
  }

  function Lookup(c: Cache, key: string, now: int): Option<Data> {
    if key !in c.entries || Expired(c.entries[key], now) then None else Some(c.entries[key].value)
  }

  function Register(tags: TagSets, key: string, names: seq<string>): TagSets {
    map t | t in tags.Keys + (set n | n in names) ::
      (if t in tags then tags[t] else {}) + (if t in names then {key} else {})
  }

  function KeysUnder(tags: TagSets, names: seq<string>): set<string> {
    set t, k | t in names && t in tags && k in tags[t] :: k
  }

  function KeysWith(keys: set<string>, pattern: string): set<string> {
    set k | k in keys && Occurs(pattern, k)
  }

  function Stored(c: Cache, key: string, value: Data, names: seq<string>, ttl: int, now: int): Cache {
    Cache(c.entries[key := Entry(value, if ttl > 0 then now + ttl else 0)], Register(c.tags, key, names))
  }

  function Invalidated(c: Cache, names: seq<string>): Cache {
    Cache(c.entries - KeysUnder(c.tags, names), c.tags - (set n | n in names))
  }

  function Apply(c: Cache, op: Op): Cache {
    match op
    case Set(key, value, names, ttl, now) => Stored(c, key, value, names, ttl, now)
    case Delete(key) => c.(entries := c.entries - {key})
    case Flush => EMPTY
    case InvalidateTags(names, _) => Invalidated(c, names)
    case InvalidatePattern(pattern) => c.(entries := c.entries - KeysWith(c.entries.Keys, pattern))
    case Cleanup(now) => c.(entries := c.entries - set k | k in c.entries && Expired(c.entries[k], now))
  }

  function Run(ops: seq<Op>): Cache
    decreases |ops|
  {
    if ops == [] then EMPTY else Apply(Run(ops[..|ops| - 1]), ops[|ops| - 1])
  }

  // ---------------------------------------------------------------------------
  // What the history says
  // ---------------------------------------------------------------------------

  predicate Sets(op: Op, key: string) {
    op.Set? && op.key == key
  }

  predicate Forgets(op: Op, tag: string) {
    op.Flush? || (op.InvalidateTags? && tag in op.tags)
  }

  /** Operation `i` set `key` with `tag`, and the tag was not flushed or invalidated since. */
  ghost predicate RegisteredAt(ops: seq<Op>, tag: string, key: string, i: nat) {
    && i < |ops| && Sets(ops[i], key) && tag in ops[i].tags
    && forall j :: i < j < |ops| ==> !Forgets(ops[j], tag)
  }

  ghost predicate Registered(ops: seq<Op>, tag: string, key: string) {
    exists i :: RegisteredAt(ops, tag, key, i)
  }

  /** Operation `i` is the latest set of `key`. */
  ghost predicate LatestSet(ops: seq<Op>, key: string, i: nat) {
    && i < |ops| && Sets(ops[i], key)
    && forall j :: i < j < |ops| ==> !Sets(ops[j], key)
  }

  predicate Holds(tags: TagSets, tag: string, key: string) {
    tag in tags && key in tags[tag]
  }

  lemma RegisteredStep(ops: seq<Op>, op: Op, tag: string, key: string)
    ensures Registered(ops + [op], tag, key) <==>
            (Sets(op, key) && tag in op.tags) || (Registered(ops, tag, key) && !Forgets(op, tag))
  {
    var all := ops + [op];
    if Sets(op, key) && tag in op.tags {
      assert RegisteredAt(all, tag, key, |ops|);
    } else if i: nat :| RegisteredAt(ops, tag, key, i) && !Forgets(op, tag) {
      assert RegisteredAt(all, tag, key, i);
    }
    if i: nat :| RegisteredAt(all, tag, key, i) {
      if i < |ops| {
        assert all[|ops|] == op;
        forall j | i < j < |ops| ensures !Forgets(ops[j], tag) { assert all[j] == ops[j]; }
        assert RegisteredAt(ops, tag, key, i);
      }
    }
  }

  /** The tag sets are exactly the registrations since the last flush or invalidation of each tag. */
  lemma {:induction false} TagSetsAreHistory(ops: seq<Op>, tag: string, key: string)
    ensures Holds(Run(ops).tags, tag, key) <==> Registered(ops, tag, key)
    decreases |ops|
  {
    if ops != [] {
      var before, op := ops[..|ops| - 1], ops[|ops| - 1];
      TagSetsAreHistory(before, tag, key);
      assert ops == before + [op];
      RegisteredStep(before, op, tag, key);
    }
  }

  /** In every run a stored key holds the value and expiration of its latest set,
      and is in the tag set of every tag of that set. */
  lemma {:induction false} StoredKeyIsRegistered(ops: seq<Op>, key: string) returns (i: nat)
    requires key in Run(ops).entries
    ensures LatestSet(ops, key, i)
    ensures Run(ops).entries[key] == Entry(ops[i].value, if ops[i].ttl > 0 then ops[i].now + ops[i].ttl else 0)
    ensures forall tag :: tag in ops[i].tags ==> Holds(Run(ops).tags, tag, key)
    decreases |ops|
  {
    var before, op := ops[..|ops| - 1], ops[|ops| - 1];
    assert ops == before + [op];
    if Sets(op, key) {
      i := |ops| - 1;
    } else {
      i := StoredKeyIsRegistered(before, key);
      assert ops[i] == before[i];
      forall tag | tag in ops[i].tags
        ensures Holds(Run(ops).tags, tag, key)
      {
        assert Holds(Run(before).tags, tag, key);
      }
    }
  }

  /** InvalidateTags removes exactly the keys registered under one of the tags since that tag
      was last forgotten; no key whose latest set named one of the tags is left. */
  lemma InvalidateTagsExactly(ops: seq<Op>, names: seq<string>, key: string)
    ensures var after := Invalidated(Run(ops), names);
            && (key in after.entries <==>
                key in Run(ops).entries && forall tag :: tag in names ==> !Registered(ops, tag, key))
            && (key in after.entries ==> after.entries[key] == Run(ops).entries[key])
            && (key in after.entries ==> forall i: nat :: LatestSet(ops, key, i) ==>
                  forall tag :: tag in names ==> tag !in ops[i].tags)
  {
    forall tag ensures Holds(Run(ops).tags, tag, key) <==> Registered(ops, tag, key) {
      TagSetsAreHistory(ops, tag, key);
    }
    var after := Invalidated(Run(ops), names);
    assert key in KeysUnder(Run(ops).tags, names) <==> exists tag :: tag in names && Holds(Run(ops).tags, tag, key);
    if key in after.entries {
      var latest := StoredKeyIsRegistered(ops, key);
      forall i: nat, tag | LatestSet(ops, key, i) && tag in names
        ensures tag !in ops[i].tags
      {
        assert i == latest;
      }
    }
  }

  // ---------------------------------------------------------------------------
  // What a reader gets
  // ---------------------------------------------------------------------------

  /** A set with a positive ttl runs out after it; one without never does.  An expiration before the
      start of the clock counts as none. */
  predicate RunsOut(store: Op, now: int)
    requires store.Set?
  {
    store.ttl > 0 && store.now + store.ttl > 0 && now > store.now + store.ttl
  }

  /** Operation `j` removes the key that operation `i` set. */
  ghost predicate Removes(ops: seq<Op>, key: string, i: nat, j: nat)
    requires i < j < |ops| && ops[i].Set?
  {
    match ops[j]
    case Set(_, _, _, _, _) => false
    case Delete(k) => k == key
    case Flush => true
    case InvalidateTags(names, _) => exists tag :: tag in names && Registered(ops[..j], tag, key)
    case InvalidatePattern(pattern) => exists before, after :: key == before + pattern + after
    case Cleanup(now) => RunsOut(ops[i], now)
  }

  ghost predicate IsKept(ops: seq<Op>, key: string, i: nat)
    requires i < |ops| && ops[i].Set?
  {
    forall j :: i < j < |ops| ==> !Removes(ops, key, i, j)
  }

  /** A key is stored if and only if nothing removed it since its latest set. */
  lemma {:induction false} StoredIff(ops: seq<Op>, key: string, i: nat)
    requires LatestSet(ops, key, i)
    ensures key in Run(ops).entries <==> IsKept(ops, key, i)
    decreases |ops|
  {
    var n := |ops| - 1;
    var before, op := ops[..n], ops[n];
    if i < n {
      assert LatestSet(before, key, i);
      StoredIff(before, key, i);
      forall j | i < j < n ensures Removes(before, key, i, j) == Removes(ops, key, i, j) {
        assert before[..j] == ops[..j];
      }
      if key in Run(before).entries { StoredStays(ops, key, i); }
    }
  }

  lemma StoredStays(ops: seq<Op>, key: string, i: nat)
    requires i < |ops| - 1 && LatestSet(ops, key, i) && key in Run(ops[..|ops| - 1]).entries
    ensures key in Run(ops).entries <==> !Removes(ops, key, i, |ops| - 1)
  {
    hide Occurs, Register;
    var before, op := ops[..|ops| - 1], ops[|ops| - 1];
    var latest := StoredKeyIsRegistered(before, key);
    assert LatestSet(before, key, i) && latest == i;
    match op
    case InvalidateTags(names, _) =>
      InvalidateTagsExactly(before, names, key);
    case InvalidatePattern(pattern) =>
      OccursIff(pattern, key);
    case _ =>
  }

  lemma {:induction false} NeverSet(ops: seq<Op>, key: string)
    requires forall op :: op in ops ==> !Sets(op, key)
    ensures key !in Run(ops).entries
    decreases |ops|
  {
    if ops != [] {
      assert ops[|ops| - 1] in ops;
      NeverSet(ops[..|ops| - 1], key);
    }
  }

  // ---------------------------------------------------------------------------
  // The cache object
  // ---------------------------------------------------------------------------

  class LocalCache {
    var entries: map<string, Entry>
    var tags: TagSets

    ghost function Contents(): Cache
      reads this
    {
      Cache(entries, tags)
    }

    constructor ()
      ensures Contents() == EMPTY
    {
      entries, tags := map[], map[];
    }

    /** The value of the latest set of the key, unless something removed it or its ttl has run out since. */
    method Get(key: string, now: int) returns (value: Option<Data>)
      ensures value == Lookup(Contents(), key, now)
      ensures forall ops: seq<Op>, i: nat :: Contents() == Run(ops) && LatestSet(ops, key, i) ==>
                value == if IsKept(ops, key, i) && !RunsOut(ops[i], now) then Some(ops[i].value) else None
      ensures forall ops: seq<Op> :: Contents() == Run(ops) && (forall op :: op in ops ==> !Sets(op, key)) ==>
              value == None
    {
      forall ops: seq<Op>, i: nat | Contents() == Run(ops) && LatestSet(ops, key, i)
        ensures key in entries <==> IsKept(ops, key, i)
        ensures key in entries ==>
                entries[key] == Entry(ops[i].value, if ops[i].ttl > 0 then ops[i].now + ops[i].ttl else 0)
      {
        StoredIff(ops, key, i);
        if key in entries { var latest := StoredKeyIsRegistered(ops, key); }
      }
      forall ops: seq<Op> | Contents() == Run(ops) && (forall op :: op in ops ==> !Sets(op, key))
        ensures key !in entries {
        NeverSet(ops, key);
      }
      if key !in entries || (entries[key].expiration > 0 && now > entries[key].expiration) {
        return None;
      }
      return Some(entries[key].value);
    }

    method SetWithTags(key: string, value: Data, names: seq<string>, ttl: int, now: int)
      modifies this
      ensures Contents() == Apply(old(Contents()), Set(key, value, names, ttl, now))
    {
      var expiration := 0;
      if ttl > 0 {
        expiration := now + ttl;
      }
      entries := entries[key := Entry(value, expiration)];
      RegisterNothing(tags, key);
      for i := 0 to |names|
        invariant entries == old(entries)[key := Entry(value, expiration)]
        invariant tags == Register(old(tags), key, names[..i])
      {
        var tag := names[i];
        if tag !in tags {
          tags := tags[tag := {}];
        }
        tags := tags[tag := tags[tag] + {key}];
        RegisterOneMore(old(tags), key, names[..i], tag);
        assert names[..i + 1] == names[..i] + [tag];
      }
      assert names[..|names|] == names;
    }

    method Delete(key: string)
      modifies this
      ensures Contents() == Apply(old(Contents()), Op.Delete(key))
    {
      entries := entries - {key};
    }

    method Flush()
      modifies this
      ensures Contents() == EMPTY
    {
      entries, tags := map[], map[];
    }

    /** Returns the exact drop in the number of entries. */
    method InvalidateTags(names: seq<string>) returns (deleted: nat)
      modifies this
      ensures Contents() == Invalidated(old(Contents()), names)
      ensures deleted == |old(entries)| - |entries|
    {
      deleted := 0;
      ghost var start := Contents();
      for i := 0 to |names|
        invariant Contents() == InvalidateEach(start, names[..i])
        invariant deleted == |start.entries| - |entries|
      {
        assert names[..i + 1][..i] == names[..i];
        var n := InvalidateTag(names[i]);
        deleted := deleted + n;
      }
      assert names[..|names|] == names;
      InvalidateEachIsInvalidated(start, names);
    }

    /** One round of InvalidateTags: delete the tag's keys, then the tag. */
    method InvalidateTag(tag: string) returns (deleted: nat)
      modifies this
      ensures Contents() == WithoutTag(old(Contents()), tag)
      ensures deleted == |old(entries)| - |entries|
    {
      deleted := 0;
      if tag in tags {
        var rest := tags[tag];
        ghost var start, keys := entries, rest;
        while rest != {}
          invariant rest <= keys && tags == old(tags)
          invariant entries == start - (keys - rest)
          invariant deleted == |start| - |entries|
        {
          var key :| key in rest;
          DropOne(entries, key);
          DropMore(start, keys, rest, key);
          if key in entries {
            entries := entries - {key};
            deleted := deleted + 1;
          }
          rest := rest - {key};
        }
        assert keys - {} == keys;
        tags := tags - {tag};
      }
    }

    method InvalidatePattern(pattern: string) returns (deleted: nat)
      modifies this
      ensures Contents() == Apply(old(Contents()), Op.InvalidatePattern(pattern))
      ensures deleted == |old(entries)| - |entries|
    {
      hide Occurs;
      deleted := 0;
      ghost var start := entries;
      var keys := entries.Keys;
      while keys != {}
        invariant keys <= start.Keys && tags == old(tags)
        invariant entries == start - KeysWith(start.Keys - keys, pattern)
        invariant deleted == |start| - |entries|
      {
        var key :| key in keys;
        KeysWithOneMore(start.Keys, keys, key, pattern);
        if Occurs(pattern, key) {
          DropOne(entries, key);
          DropAlso(start, KeysWith(start.Keys - keys, pattern), key);
          entries := entries - {key};
          deleted := deleted + 1;
        }
        keys := keys - {key};
      }
      assert start.Keys - {} == start.Keys;
    }

    /** One tick of the cleanup loop. */
    method Cleanup(now: int)
      modifies this
      ensures Contents() == Apply(old(Contents()), Op.Cleanup(now))
    {
      var keys := entries.Keys;
      while keys != {}
        invariant keys <= old(entries).Keys && tags == old(tags)
        invariant entries == old(entries) - set k | k in old(entries).Keys - keys && Expired(old(entries)[k], now)
      {
        var key :| key in keys;
        if entries[key].expiration > 0 && now > entries[key].expiration {
          entries := entries - {key};
        }
        keys := keys - {key};
      }
    }
  }

  lemma DropOne<T>(m: map<string, T>, key: string)
    ensures |m - {key}| == if key in m then |m| - 1 else |m|
    ensures key !in m ==> m - {key} == m
  {
    assert (m - {key}).Keys == m.Keys - {key};
  }

  lemma DropAlso<T>(m: map<string, T>, keys: set<string>, key: string)
    ensures (m - keys) - {key} == m - (keys + {key})
  {}

  lemma DropMore<T>(m: map<string, T>, keys: set<string>, rest: set<string>, key: string)
    requires key in rest && rest <= keys
    ensures (m - (keys - rest)) - {key} == m - (keys - (rest - {key}))
  {}

  lemma KeysWithOneMore(all: set<string>, rest: set<string>, key: string, pattern: string)
    requires key in rest && rest <= all
    ensures KeysWith(all - (rest - {key}), pattern) ==
            KeysWith(all - rest, pattern) + if Occurs(pattern, key) then {key} else {}
  {
    assert all - (rest - {key}) == (all - rest) + {key};
  }

  lemma RegisterNothing(tags: TagSets, key: string)
    ensures Register(tags, key, []) == tags
  {
    forall t | t in tags ensures Register(tags, key, [])[t] == tags[t] {}
  }

  lemma RegisterOneMore(tags: TagSets, key: string, names: seq<string>, tag: string)
    ensures var before := Register(tags, key, names);
            Register(tags, key, names + [tag]) ==
            before[tag := (if tag in before then before[tag] else {}) + {key}]
  {
    var before, after := Register(tags, key, names), Register(tags, key, names + [tag]);
    var now := before[tag := (if tag in before then before[tag] else {}) + {key}];
    assert after.Keys == now.Keys;
    forall t | t in after ensures after[t] == now[t] {}
  }

  function WithoutTag(c: Cache, tag: string): Cache {
    if tag in c.tags then Cache(c.entries - c.tags[tag], c.tags - {tag}) else c
  }

  function InvalidateEach(c: Cache, names: seq<string>): Cache
    decreases |names|
  {
    if names == [] then c else WithoutTag(InvalidateEach(c, names[..|names| - 1]), names[|names| - 1])
  }

  lemma InvalidatedOneMore(c: Cache, names: seq<string>, tag: string)
    ensures Invalidated(c, names + [tag]) == WithoutTag(Invalidated(c, names), tag)
  {
    if tag in names || tag !in c.tags {
      assert KeysUnder(c.tags, names + [tag]) == KeysUnder(c.tags, names);
    } else {
      assert KeysUnder(c.tags, names + [tag]) == KeysUnder(c.tags, names) + c.tags[tag];
    }
  }

  /** Invalidating a list of tags is invalidating them one after the other. */
  lemma {:induction false} InvalidateEachIsInvalidated(c: Cache, names: seq<string>)
    ensures InvalidateEach(c, names) == Invalidated(c, names)
    decreases |names|
  {
    if names == [] {
      assert KeysUnder(c.tags, names) == {};
    } else {
      var most, tag := names[..|names| - 1], names[|names| - 1];
      InvalidateEachIsInvalidated(c, most);
      InvalidatedOneMore(c, most, tag);
      assert names == most + [tag];
    }
  }
}
