/**
 * A cache shared with every other request: between any two operations of the one that is followed,
 * the others look up and store what they please, and so evict anything.
 */
module SharedCache {
  import opened Words
  import opened Caching
  import opened CacheRuns

  /** What an operation may leave: entries that were there, and entries that came in. */
  ghost predicate OnlyFrom<K(!new), V(!new)>(after: Store<K, V>, before: Store<K, V>, came: set<(K, V)>) {
    forall k :: k in after ==> (k in before && after[k].value == before[k].value) || (k, after[k].value) in came
  }

  /** What the calls of some turns store. */
  ghost function Stored<K, V>(traffic: seq<seq<Op<K, V>>>): set<(K, V)> {
    set i, j | 0 <= i < |traffic| && 0 <= j < |traffic[i]| && traffic[i][j].Insert? ::
      (traffic[i][j].key, traffic[i][j].value)
  }

  class Shared<K(==,!new), V(==,!new)> {
    const cache: Cache<K, V>
    /** What other requests do to the cache while this one runs, turn by turn. */
    const traffic: seq<seq<Op<K, V>>>
    var turn: nat

    /** No expiry: the caches shared this way are permanent. */
    ghost predicate Valid()
      reads cache
    {
      cache.Valid() && cache.limits.ttl == None
    }

    /** What the others ever put in. */
    ghost function Brought(): set<(K, V)> {
      Stored(traffic)
    }

    /** Nobody else is there. */
    ghost predicate Quiet() {
      traffic == []
    }

    lemma QuietBringsNothing()
      requires Quiet()
      ensures Brought() == {}
    {
    }

    constructor (capacity: nat, traffic: seq<seq<Op<K, V>>>)
      ensures Valid() && fresh(cache) && cache.entries == map[] && this.traffic == traffic
      ensures cache.limits == Limits(Max(capacity, 1), None)
    {
      cache := new Cache<K, V>(capacity, None);
      this.traffic, turn := traffic, 0;
    }

    /** The cache as the other requests leave it. */
    method Others()
      requires Valid()
      modifies this`turn, cache
      ensures Valid()
      ensures OnlyFrom(cache.entries, old(cache.entries), Brought())
      ensures Quiet() ==> cache.entries == old(cache.entries)
    {
      if turn < |traffic| {
        var ops := traffic[turn];
        ghost var now := turn;
        turn := turn + 1;
        for i := 0 to |ops|
          invariant Valid()
          invariant OnlyFrom(cache.entries, old(cache.entries), Brought())
        {
          hide AfterGet, AfterInsert, Sound, Hit;
          match ops[i] {
            case Get(key, _) =>
              GetKeeps(cache.View(), key);
              var _ := cache.Get(key, 0);
            case Insert(key, value, _) =>
              assert traffic[now][i].Insert? && (key, value) in Brought();
              InsertKeeps(cache.View(), key, value, cache.limits.capacity);
              var _ := cache.Insert(key, value, 0);
          }
        }
      }
    }

    method Lookup(key: K) returns (r: Option<V>)
      requires Valid()
      modifies this`turn, cache
      ensures Valid()
      ensures OnlyFrom(cache.entries, old(cache.entries), Brought())
      ensures r.Some? <==> key in cache.entries
      ensures r.Some? ==> r.value == cache.entries[key].value
      ensures Quiet() ==> cache.entries.Keys == old(cache.entries).Keys
    {
      Others();
      GetKeeps(cache.View(), key);
      GetKeepsKeys(cache.View(), key);
      hide AfterGet, Hit, Sound;
      r := cache.Get(key, 0);
    }

    method Store(key: K, value: V)
      requires Valid()
      modifies this`turn, cache
      ensures Valid()
      ensures OnlyFrom(cache.entries, old(cache.entries), Brought() + {(key, value)})
      ensures key in cache.entries && cache.entries[key].value == value
      ensures Quiet() && |old(cache.entries)| < cache.limits.capacity ==>
                && cache.entries.Keys == old(cache.entries).Keys + {key}
                && |cache.entries| <= |old(cache.entries)| + 1
    {
      Others();
      if |cache.entries| < cache.limits.capacity {
        InsertKeepsKeys(cache.View(), key, value, cache.limits.capacity);
      }
      InsertKeeps(cache.View(), key, value, cache.limits.capacity);
      hide AfterInsert, Sound;
      var _ := cache.Insert(key, value, 0);
    }
  }
}
