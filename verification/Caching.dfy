/**
 * The bounded in-memory cache: optional expiry, least-recently-used eviction a batch at a time.
 *
 * The lock makes every call one atomic step.  Time is a number the caller passes in.
 */
module Caching {
  import opened Words

  /** A block at least this deep is taken to have its height for good. */
  const REORG_WINDOW := 60

  const EVICT_FRACTION := 16

  predicate SafeToCacheByHeight(depth: nat) {
    depth >= REORG_WINDOW
  }

  datatype Entry<+V> = Entry(value: V, usedAt: nat, storedAt: int)

  type Store<K, +V> = map<K, Entry<V>>

  /** How many entries one eviction pass clears. */
  function DropCount(capacity: nat): (n: nat)
    ensures n >= 1
    ensures capacity >= 1 ==> n <= capacity
  {
    Max(capacity / EVICT_FRACTION, 1)
  }

  /** A sixteenth of the capacity, and one from the smallest caches. */
  lemma BatchSize(capacity: nat)
    ensures capacity < 32 ==> DropCount(capacity) == 1
    ensures capacity >= 16 ==> 16 * DropCount(capacity) <= capacity < 16 * DropCount(capacity) + 16
  {
  }

  predicate Expired<V>(e: Entry<V>, now: int, ttl: Option<nat>) {
    ttl.Some? && now - e.storedAt >= ttl.value
  }

  // ---------------------------------------------------------------- recency

  /** No two entries share a recency stamp. */
  ghost predicate Distinct<K(!new), V>(m: Store<K, V>) {
    forall k, k' :: k in m && k' in m && k != k' ==> m[k].usedAt != m[k'].usedAt
  }

  /** The keys last used before the given stamp. */
  function Older<K, V>(m: Store<K, V>, stamp: nat): set<K> {
    set k | k in m && m[k].usedAt < stamp
  }

  /** What is left when the n least recently used entries are gone. */
  function Survivors<K, V>(m: Store<K, V>, n: nat): Store<K, V> {
    map k | k in m && |Older(m, m[k].usedAt)| >= n :: m[k]
  }

  /** Later stamps have at least as many older keys, and strictly more than any key among them. */
  lemma OlderMonotone<K(!new), V>(m: Store<K, V>, a: nat, b: nat)
    requires a <= b
    ensures |Older(m, a)| <= |Older(m, b)|
    ensures (exists k :: k in m && m[k].usedAt == a) && a < b ==> |Older(m, a)| < |Older(m, b)|
  {
    SubsetSize(Older(m, a), Older(m, b));
    if k :| k in m && m[k].usedAt == a {
      if a < b {
        assert k in Older(m, b) && k !in Older(m, a);
      }
    }
  }

  /** The most recently used key of a non-empty store. */
  lemma Newest<K(!new), V>(m: Store<K, V>, keys: set<K>) returns (k: K)
    requires keys != {} && keys <= m.Keys
    ensures k in keys && forall k' :: k' in keys ==> m[k'].usedAt <= m[k].usedAt
    decreases keys
  {
    var x :| x in keys;
    if keys == {x} {
      k := x;
    } else {
      var y := Newest(m, keys - {x});
      k := if m[x].usedAt < m[y].usedAt then y else x;
      forall k' | k' in keys ensures m[k'].usedAt <= m[k].usedAt {
        assert k' == x || k' in keys - {x};
      }
    }
  }

  /** Every rank below the size is some key's rank. */
  lemma RankExists<K(!new), V>(m: Store<K, V>, keys: set<K>, n: nat) returns (k: K)
    requires Distinct(m) && keys <= m.Keys && n < |keys|
    requires forall k, k' :: k in keys && k' in m && m[k'].usedAt < m[k].usedAt ==> k' in keys
    ensures k in keys && |Older(m, m[k].usedAt)| == n
    decreases keys
  {
    var top := Newest(m, keys);
    assert Older(m, m[top].usedAt) == keys - {top};
    if n == |keys| - 1 {
      k := top;
    } else {
      k := RankExists(m, keys - {top}, n);
    }
  }

  /** Cutting at the stamp of rank n keeps exactly the survivors. */
  lemma CutIsSurvivors<K(!new), V>(m: Store<K, V>, n: nat, cut: K)
    requires cut in m && |Older(m, m[cut].usedAt)| == n
    ensures (map k | k in m && m[k].usedAt >= m[cut].usedAt :: m[k]) == Survivors(m, n)
  {
    forall k | k in m ensures m[k].usedAt >= m[cut].usedAt <==> |Older(m, m[k].usedAt)| >= n {
      if m[k].usedAt >= m[cut].usedAt {
        OlderMonotone(m, m[cut].usedAt, m[k].usedAt);
      } else {
        OlderMonotone(m, m[k].usedAt, m[cut].usedAt);
      }
    }
  }

  /** Every entry that goes was used before every entry that stays. */
  lemma EvictionTakesOldest<K(!new), V>(m: Store<K, V>, n: nat)
    ensures forall k, k' :: k in Survivors(m, n) && k' in m && k' !in Survivors(m, n) ==>
              m[k'].usedAt < m[k].usedAt
  {
    var left := Survivors(m, n);
    forall k, k' | k in left && k' in m && k' !in left ensures m[k'].usedAt < m[k].usedAt {
      if m[k'].usedAt >= m[k].usedAt {
        OlderMonotone(m, m[k].usedAt, m[k'].usedAt);
      }
    }
  }

  /** The keys that go when the n least recently used entries do. */
  function Victims<K, V>(m: Store<K, V>, n: nat): set<K> {
    m.Keys - Survivors(m, n).Keys
  }

  /** Exactly min(n, size) entries go. */
  lemma EvictionIsExact<K(!new), V>(m: Store<K, V>, n: nat)
    requires Distinct(m)
    ensures |Survivors(m, n)| == |m| - Min(n, |m|)
  {
    var left := Survivors(m, n);
    if n < |m| {
      var cut := RankExists(m, m.Keys, n);
      CutIsSurvivors(m, n, cut);
      assert left.Keys == m.Keys - Older(m, m[cut].usedAt);
      SubsetSize(Older(m, m[cut].usedAt), m.Keys);
      assert |left.Keys| == |m.Keys| - n;
    } else {
      NoneOlderThanAll(m, n);
    }
  }

  lemma VictimCount<K(!new), V>(m: Store<K, V>, n: nat)
    requires Distinct(m)
    ensures |Victims(m, n)| == Min(n, |m|)
  {
    EvictionIsExact(m, n);
    assert Survivors(m, n).Keys <= m.Keys;
    hide Survivors;
    assert |m.Keys| == |m| && |Survivors(m, n).Keys| == |Survivors(m, n)|;
    SubsetSize(Survivors(m, n).Keys, m.Keys);
  }

  lemma NoneOlderThanAll<K(!new), V>(m: Store<K, V>, n: nat)
    requires n >= |m|
    ensures Survivors(m, n) == map[]
  {
    forall k | k in m ensures |Older(m, m[k].usedAt)| < n {
      assert k !in Older(m, m[k].usedAt);
      SubsetSize(Older(m, m[k].usedAt), m.Keys - {k});
      assert |m.Keys - {k}| == |m.Keys| - 1;
    }
  }

  // ---------------------------------------------------------------- one call

  datatype Snapshot<K, +V> = Snapshot(entries: Store<K, V>, clock: nat, hits: nat, misses: nat)

  datatype Limits = Limits(capacity: nat, ttl: Option<nat>)

  /** The store a lookup sees: its own key goes first if it has expired. */
  function Refreshed<K, V>(m: Store<K, V>, key: K, now: int, ttl: Option<nat>): Store<K, V> {
    if key in m && Expired(m[key], now, ttl) then m - {key} else m
  }

  function Hit<K, V>(s: Snapshot<K, V>, key: K, now: int, ttl: Option<nat>): Option<V> {
    var m := Refreshed(s.entries, key, now, ttl);
    if key in m then Some(m[key].value) else None
  }

  /** A hit is an entry that is there, and stored less than its time to live ago. */
  lemma HitExactly<K, V>(s: Snapshot<K, V>, key: K, now: int, ttl: Option<nat>)
    ensures Hit(s, key, now, ttl).Some? <==>
              key in s.entries && (ttl.None? || now - s.entries[key].storedAt < ttl.value)
    ensures Hit(s, key, now, ttl).Some? ==> Hit(s, key, now, ttl).value == s.entries[key].value
  {
  }

  function AfterGet<K, V>(s: Snapshot<K, V>, key: K, now: int, ttl: Option<nat>): Snapshot<K, V> {
    var m, clock := Refreshed(s.entries, key, now, ttl), s.clock + 1;
    if key in m then Snapshot(m[key := m[key].(usedAt := clock)], clock, s.hits + 1, s.misses)
    else Snapshot(m, clock, s.hits, s.misses + 1)
  }

  predicate Evicts<K, V>(s: Snapshot<K, V>, key: K, capacity: nat) {
    key !in s.entries && |s.entries| >= capacity
  }

  function AfterInsert<K, V>(s: Snapshot<K, V>, key: K, value: V, now: int, capacity: nat): Snapshot<K, V> {
    var m := if Evicts(s, key, capacity) then Survivors(s.entries, DropCount(capacity)) else s.entries;
    var clock := s.clock + 1;
    Snapshot(m[key := Entry(value, clock, now)], clock, s.hits, s.misses)
  }

  /** What every call keeps: distinct stamps, none ahead of the clock, never over capacity. */
  ghost predicate Sound<K(!new), V>(s: Snapshot<K, V>, capacity: nat) {
    && Distinct(s.entries)
    && (forall k :: k in s.entries ==> s.entries[k].usedAt <= s.clock)
    && |s.entries| <= capacity
  }

  lemma GetKeepsSound<K(!new), V>(s: Snapshot<K, V>, key: K, now: int, limits: Limits)
    requires Sound(s, limits.capacity)
    ensures Sound(AfterGet(s, key, now, limits.ttl), limits.capacity)
  {
    var m := Refreshed(s.entries, key, now, limits.ttl);
    assert |m| <= |s.entries| by {
      SubsetSize(m.Keys, s.entries.Keys);
      assert |m.Keys| == |m| && |s.entries.Keys| == |s.entries|;
    }
    if key in m {
      var m' := m[key := m[key].(usedAt := s.clock + 1)];
      assert m'.Keys == m.Keys;
      assert |m'| == |m'.Keys| == |m.Keys| == |m|;
    }
  }

  lemma InsertKeepsSound<K(!new), V>(s: Snapshot<K, V>, key: K, value: V, now: int, capacity: nat)
    requires capacity >= 1 && Sound(s, capacity)
    ensures Sound(AfterInsert(s, key, value, now, capacity), capacity)
  {
    hide Survivors, DropCount;
    if Evicts(s, key, capacity) {
      PassLeavesRoom(s, capacity);
      InsertSound(Survivors(s.entries, DropCount(capacity)), s.clock, key, value, now, capacity);
    } else {
      InsertSound(s.entries, s.clock, key, value, now, capacity);
    }
  }

  /** After a pass the rest is sound still, with room for at least one more. */
  lemma PassLeavesRoom<K(!new), V>(s: Snapshot<K, V>, capacity: nat)
    requires capacity >= 1 && Sound(s, capacity)
    ensures Sound(Snapshot(Survivors(s.entries, DropCount(capacity)), s.clock, s.hits, s.misses), capacity - 1)
    ensures forall k :: k in Survivors(s.entries, DropCount(capacity)) ==> k in s.entries
  {
    EvictionIsExact(s.entries, DropCount(capacity));
  }

  lemma InsertSound<K(!new), V>(m: Store<K, V>, clock: nat, key: K, value: V, now: int, capacity: nat)
    requires Distinct(m) && forall k :: k in m ==> m[k].usedAt <= clock
    requires |m| <= if key in m then capacity else capacity - 1
    ensures Sound(Snapshot(m[key := Entry(value, clock + 1, now)], clock + 1, 0, 0), capacity)
  {
    InsertSize(m, key, Entry(value, clock + 1, now));
  }

  lemma InsertSize<K, V>(m: map<K, V>, key: K, value: V)
    ensures |m[key := value]| == if key in m then |m| else |m| + 1
  {
    var m' := m[key := value];
    assert m'.Keys == m.Keys + {key};
    assert |m'| == |m'.Keys| && |m| == |m.Keys|;
  }

  /** No call changes a value that stays, and a hit is a value that was there. */
  lemma GetKeeps<K(!new), V(!new)>(s: Snapshot<K, V>, key: K)
    ensures forall k :: k in AfterGet(s, key, 0, None).entries ==>
              k in s.entries && AfterGet(s, key, 0, None).entries[k].value == s.entries[k].value
    ensures Hit(s, key, 0, None).Some? ==>
              key in s.entries && Hit(s, key, 0, None).value == s.entries[key].value
  {
  }

  lemma InsertKeeps<K(!new), V(!new)>(s: Snapshot<K, V>, key: K, value: V, capacity: nat)
    ensures var m := AfterInsert(s, key, value, 0, capacity).entries;
            && key in m && m[key].value == value
            && forall k :: k in m ==>
                 if k == key then m[k].value == value else k in s.entries && m[k].value == s.entries[k].value
  {
  }

  /** With room to spare an insertion removes nothing. */
  lemma InsertKeepsKeys<K(!new), V(!new)>(s: Snapshot<K, V>, key: K, value: V, capacity: nat)
    requires |s.entries| < capacity
    ensures AfterInsert(s, key, value, 0, capacity).entries.Keys == s.entries.Keys + {key}
    ensures |AfterInsert(s, key, value, 0, capacity).entries| <= |s.entries| + 1
  {
    InsertSize(s.entries, key, Entry(value, s.clock + 1, 0));
  }

  /** Without expiry a lookup removes nothing, and finds what is there. */
  lemma GetKeepsKeys<K(!new), V(!new)>(s: Snapshot<K, V>, key: K)
    ensures AfterGet(s, key, 0, None).entries.Keys == s.entries.Keys
    ensures Hit(s, key, 0, None).Some? <==> key in s.entries
  {
    if key in s.entries {
      assert s.entries[key := s.entries[key].(usedAt := s.clock + 1)].Keys == s.entries.Keys;
    }
  }

  // ---------------------------------------------------------------- the object

  class Cache<K(==,!new), V(!new)> {
    var entries: Store<K, V>
    var clock: nat
    var hits: nat
    var misses: nat
    const limits: Limits

    ghost function View(): Snapshot<K, V>
      reads this
    {
      Snapshot(entries, clock, hits, misses)
    }

    ghost predicate Valid()
      reads this
    {
      limits.capacity >= 1 && Sound(View(), limits.capacity)
    }

    /** Zero capacity would evict what was just inserted, so it means one. */
    constructor (capacity: nat, ttl: Option<nat>)
      ensures Valid() && limits == Limits(Max(capacity, 1), ttl)
      ensures View() == Snapshot(map[], 0, 0, 0)
    {
      entries, clock, hits, misses := map[], 0, 0, 0;
      limits := Limits(Max(capacity, 1), ttl);
    }

    method Get(key: K, now: int) returns (r: Option<V>)
      requires Valid()
      modifies this
      ensures Valid()
      ensures View() == AfterGet(old(View()), key, now, limits.ttl)
      ensures r == Hit(old(View()), key, now, limits.ttl)
    {
      hide Sound;
      ghost var before := View();
      if limits.ttl.Some? && key in entries && now - entries[key].storedAt >= limits.ttl.value {
        entries := entries - {key};
      }
      assert entries == Refreshed(before.entries, key, now, limits.ttl);
      hide Refreshed, Expired;
      clock := clock + 1;
      if key in entries {
        entries := entries[key := entries[key].(usedAt := clock)];
        r := Some(entries[key].value);
        hits := hits + 1;
      } else {
        misses := misses + 1;
        r := None;
      }
      assert View() == AfterGet(before, key, now, limits.ttl);
      hide AfterGet;
      GetKeepsSound(before, key, now, limits);
    }

    /** Drop the least recently used batch: find the cut-off by rank, then filter. */
    method EvictBatch()
      requires Distinct(entries)
      modifies this`entries
      ensures entries == Survivors(old(entries), DropCount(limits.capacity))
    {
      var dropCount := DropCount(limits.capacity);
      if dropCount >= |entries| {
        NoneOlderThanAll(entries, dropCount);
        entries := map[];
        return;
      }
      var cut := SelectNth(entries, dropCount);
      var cutoff := entries[cut].usedAt;
      CutIsSurvivors(entries, dropCount, cut);
      entries := map k | k in entries && entries[k].usedAt >= cutoff :: entries[k];
    }

    /**
     * The standard library's linear selection, by its contract: an element with exactly n smaller
     * ones beside it.
     */
    static method SelectNth(m: Store<K, V>, n: nat) returns (k: K)
      requires Distinct(m) && n < |m|
      ensures k in m && |Older(m, m[k].usedAt)| == n
    {
      assert |m.Keys| == |m|;
      ghost var witness' := RankExists(m, m.Keys, n);
      k :| k in m && |Older(m, m[k].usedAt)| == n;
    }

    method Insert(key: K, value: V, now: int) returns (stored: V)
      requires Valid()
      modifies this
      ensures Valid()
      ensures View() == AfterInsert(old(View()), key, value, now, limits.capacity)
      ensures stored == value
    {
      InsertKeepsSound(View(), key, value, now, limits.capacity);
      hide Survivors;
      clock := clock + 1;
      if key !in entries && |entries| >= limits.capacity {
        EvictBatch();
      }
      entries := entries[key := Entry(value, clock, now)];
      stored := value;
    }

    /** Length, capacity, hits and misses. */
    method Stats() returns (len: nat, capacity: nat, hits': nat, misses': nat)
      requires Valid()
      ensures len == |entries| <= capacity == limits.capacity && hits' == hits && misses' == misses
    {
      len, capacity, hits', misses' := |entries|, limits.capacity, hits, misses;
    }
  }
}
