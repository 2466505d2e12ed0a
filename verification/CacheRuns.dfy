/**
 * Whole runs of the cache: any sequence of lookups and insertions from an empty start, measured
 * against the plain record of what was inserted.
 */
module CacheRuns {
  import opened Words
  import opened Caching

  datatype Op<+K, +V> = Get(key: K, now: int) | Insert(key: K, value: V, now: int)

  function Step<K, V>(s: Snapshot<K, V>, op: Op<K, V>, limits: Limits): Snapshot<K, V> {
    match op
    case Get(key, now) => AfterGet(s, key, now, limits.ttl)
    case Insert(key, value, now) => AfterInsert(s, key, value, now, limits.capacity)
  }

  /** The cache after the calls `ops`, made in that order. */
  function Run<K, V>(ops: seq<Op<K, V>>, limits: Limits): Snapshot<K, V> {
    if ops == [] then Snapshot(map[], 0, 0, 0)
    else Step(Run(ops[..|ops| - 1], limits), ops[|ops| - 1], limits)
  }

  /** Length never exceeds capacity and stamps stay distinct, in every run. */
  lemma {:induction false} RunIsSound<K(!new), V>(ops: seq<Op<K, V>>, limits: Limits)
    requires limits.capacity >= 1
    ensures Sound(Run(ops, limits), limits.capacity)
  {
    if ops != [] {
      var before, op := ops[..|ops| - 1], ops[|ops| - 1];
      RunIsSound(before, limits);
      var s := Run(before, limits);
      hide Sound;
      match op {
        case Get(key, now) => GetKeepsSound(s, key, now, limits);
        case Insert(key, value, now) => InsertKeepsSound(s, key, value, now, limits.capacity);
      }
    }
  }

  // ---------------------------------------------------------------- what a hit returns

  /** The plain record: what was last inserted under a key, and when. */
  function LastInsert<K(==), V>(ops: seq<Op<K, V>>, key: K): Option<(V, int)> {
    if ops == [] then None
    else
      var op := ops[|ops| - 1];
      if op.Insert? && op.key == key then Some((op.value, op.now))
      else LastInsert(ops[..|ops| - 1], key)
  }

  /** Everything held is what was last inserted under its key. */
  lemma {:induction false} HoldsLastInserted<K(!new), V>(ops: seq<Op<K, V>>, limits: Limits)
    ensures forall k :: k in Run(ops, limits).entries ==>
              var e := Run(ops, limits).entries[k]; LastInsert(ops, k) == Some((e.value, e.storedAt))
  {
    if ops != [] {
      HoldsLastInserted(ops[..|ops| - 1], limits);
    }
  }

  /** A hit is the value last inserted under that key, and it has not outlived its ttl. */
  lemma HitIsLastInserted<K(!new), V>(ops: seq<Op<K, V>>, key: K, now: int, limits: Limits)
    requires Hit(Run(ops, limits), key, now, limits.ttl).Some?
    ensures LastInsert(ops, key).Some?
    ensures Hit(Run(ops, limits), key, now, limits.ttl).value == LastInsert(ops, key).value.0
    ensures limits.ttl.Some? ==> now - LastInsert(ops, key).value.1 < limits.ttl.value
  {
    HoldsLastInserted(ops, limits);
    hide Run;
  }

  /** What was just inserted is there until it has lived its time, in any cache after any calls. */
  lemma JustInserted<K(!new), V>(ops: seq<Op<K, V>>, key: K, value: V, storedAt: int, now: int, limits: Limits)
    ensures Hit(Run(ops + [Insert(key, value, storedAt)], limits), key, now, limits.ttl)
            == if limits.ttl.None? || now - storedAt < limits.ttl.value then Some(value) else None
  {
    var op: Op<K, V> := Insert(key, value, storedAt);
    assert (ops + [op])[..|ops|] == ops;
  }

  /** The lookups among some calls, and those of them that hit. */
  function Lookups<K, V>(ops: seq<Op<K, V>>): nat {
    if ops == [] then 0 else Lookups(ops[..|ops| - 1]) + if ops[|ops| - 1].Get? then 1 else 0
  }

  function HitsOf<K(==), V>(ops: seq<Op<K, V>>, limits: Limits): nat {
    if ops == [] then 0
    else
      var before, op := ops[..|ops| - 1], ops[|ops| - 1];
      HitsOf(before, limits)
      + if op.Get? && Hit(Run(before, limits), op.key, op.now, limits.ttl).Some? then 1 else 0
  }

  /** The statistics: each lookup counts once, as a hit if it found something and as a miss if not. */
  lemma {:induction false} StatsAreTallies<K(!new), V>(ops: seq<Op<K, V>>, limits: Limits)
    ensures Run(ops, limits).hits == HitsOf(ops, limits)
    ensures Run(ops, limits).hits + Run(ops, limits).misses == Lookups(ops)
  {
    if ops != [] {
      StatsAreTallies(ops[..|ops| - 1], limits);
      hide Survivors, DropCount, Evicts;
    }
  }

  // ---------------------------------------------------------------- when a key is lost

  /** The other keys named by calls made after the last call that named this one. */
  function NamedSince<K, V>(ops: seq<Op<K, V>>, key: K): set<K> {
    if ops == [] then {}
    else
      var last := ops[|ops| - 1].key;
      if last == key then {} else NamedSince(ops[..|ops| - 1], key) + {last}
  }

  /** The keys used more recently than this one. */
  function Newer<K, V>(m: Store<K, V>, key: K): set<K>
    requires key in m
  {
    set k | k in m && m[k].usedAt > m[key].usedAt
  }

  lemma {:induction false} NewerWereNamed<K(!new), V>(ops: seq<Op<K, V>>, key: K, limits: Limits)
    requires limits.capacity >= 1 && key in Run(ops, limits).entries
    ensures Newer(Run(ops, limits).entries, key) <= NamedSince(ops, key)
  {
    if ops != [] {
      var before, op := ops[..|ops| - 1], ops[|ops| - 1];
      RunIsSound(before, limits);
      var s := Run(before, limits);
      var s' := Run(ops, limits);
      if op.key != key {
        assert key in s.entries && s'.entries[key] == s.entries[key];
        NewerWereNamed(before, key, limits);
        forall k | k in Newer(s'.entries, key) ensures k in NamedSince(before, key) + {op.key} {
          if k != op.key {
            assert k in s.entries && s'.entries[k] == s.entries[k];
          }
        }
      }
    }
  }

  /** All keys but this one and the older ones are newer. */
  lemma NewerCount<K(!new), V>(m: Store<K, V>, key: K)
    requires Distinct(m) && key in m
    ensures |Newer(m, key)| == |m| - 1 - |Older(m, m[key].usedAt)|
  {
    var older, newer := Older(m, m[key].usedAt), Newer(m, key);
    assert m.Keys == older + newer + {key};
    assert older !! newer && key !in older + newer;
    assert |older + newer| == |older| + |newer|;
    assert |m.Keys| == |m|;
  }

  /**
   * How a key can be lost.  A lookup loses only the key it names, and only once expired.  An
   * insertion loses a key only by naming another, absent one, and only after at least
   * capacity - max(capacity / 16, 1) distinct other keys were named since the lost key last was.
   */
  lemma LossNeedsTraffic<K(!new), V>(ops: seq<Op<K, V>>, op: Op<K, V>, key: K, limits: Limits)
    requires limits.capacity >= 1
    requires key in Run(ops, limits).entries
    requires key !in Step(Run(ops, limits), op, limits).entries
    ensures op.Get? ==> op.key == key && Expired(Run(ops, limits).entries[key], op.now, limits.ttl)
    ensures op.Insert? ==> op.key != key && op.key !in Run(ops, limits).entries
    ensures op.Insert? ==> |NamedSince(ops, key)| >= limits.capacity - DropCount(limits.capacity)
  {
    var s := Run(ops, limits);
    RunIsSound(ops, limits);
    NewerWereNamed(ops, key, limits);
    hide Run, NamedSince;
    if op.Insert? {
      assert Evicts(s, op.key, limits.capacity);
      NewerCount(s.entries, key);
      SubsetSize(Newer(s.entries, key), NamedSince(ops, key));
    }
  }

  /** The keys a run of calls names. */
  ghost function Named<K, V>(ops: seq<Op<K, V>>): set<K> {
    set op | op in ops :: op.key
  }

  /** Calls made after a key was named can add only their own keys to those named since. */
  lemma {:induction false} NamedSinceBound<K(!new), V(!new)>(ops: seq<Op<K, V>>, later: seq<Op<K, V>>, key: K)
    requires ops != [] && ops[|ops| - 1].key == key
    ensures NamedSince(ops + later, key) <= Named(later) - {key}
    decreases |later|
  {
    var all := ops + later;
    if later == [] {
      assert all == ops;
    } else {
      var before, op := later[..|later| - 1], later[|later| - 1];
      assert all[..|all| - 1] == ops + before && later == before + [op];
      NamedGrows(before, op);
      NamedSinceBound(ops, before, key);
      hide Named;
    }
  }

  lemma {:induction false} StillHeld<K(!new), V(!new)>(
      ops: seq<Op<K, V>>, later: seq<Op<K, V>>, key: K, limits: Limits)
    requires limits.capacity >= 1 && limits.ttl.None?
    requires ops != [] && ops[|ops| - 1].key == key && key in Run(ops, limits).entries
    requires |Named(later) - {key}| < limits.capacity - DropCount(limits.capacity)
    ensures key in Run(ops + later, limits).entries
    decreases |later|
  {
    var all := ops + later;
    if later == [] {
      assert all == ops;
    } else {
      var before, op := later[..|later| - 1], later[|later| - 1];
      assert all[..|all| - 1] == ops + before && later == before + [op];
      NamedGrows(before, op);
      NamedSinceBound(ops, before, key);
      RunGrows(all, limits);
      hide Named, Run, NamedSince, Step, DropCount;
      SubsetSize(Named(before) - {key}, Named(later) - {key});
      SubsetSize(NamedSince(ops + before, key), Named(later) - {key});
      StillHeld(ops, before, key, limits);
      NotLost(ops + before, op, key, limits);
    }
  }

  /**
   * The other side of it: in a cache without expiry, a key just used is still there, with the
   * value last inserted under it, after any calls that name fewer than
   * capacity - max(capacity / 16, 1) other keys.
   */
  lemma Retention<K(!new), V(!new)>(
      ops: seq<Op<K, V>>, later: seq<Op<K, V>>, key: K, now: int, limits: Limits)
    requires limits.capacity >= 1 && limits.ttl.None?
    requires ops != [] && ops[|ops| - 1].key == key && key in Run(ops, limits).entries
    requires |Named(later) - {key}| < limits.capacity - DropCount(limits.capacity)
    ensures LastInsert(ops + later, key).Some?
    ensures Hit(Run(ops + later, limits), key, now, limits.ttl)
            == Some(LastInsert(ops + later, key).value.0)
  {
    StillHeld(ops, later, key, limits);
    HoldsLastInserted(ops + later, limits);
    hide Run, LastInsert, Named;
  }

  lemma NotLost<K(!new), V(!new)>(ops: seq<Op<K, V>>, op: Op<K, V>, key: K, limits: Limits)
    requires limits.capacity >= 1 && limits.ttl.None?
    requires key in Run(ops, limits).entries
    requires |NamedSince(ops, key)| < limits.capacity - DropCount(limits.capacity)
    ensures key in Step(Run(ops, limits), op, limits).entries
  {
    if key !in Step(Run(ops, limits), op, limits).entries {
      LossNeedsTraffic(ops, op, key, limits);
    }
  }

  lemma NamedGrows<K, V(!new)>(ops: seq<Op<K, V>>, op: Op<K, V>)
    ensures Named(ops + [op]) == Named(ops) + {op.key}
  {
    assert forall o :: o in ops + [op] <==> o in ops || o == op;
    assert op in ops + [op];
  }

  // ---------------------------------------------------------------- what eviction costs

  /** Insertions of absent keys, passes of evict_batch, entries those dropped, entries expired. */
  datatype Tally = Tally(absent: nat, passes: nat, dropped: nat, scanned: nat, expired: nat)

  function Bool(b: bool): nat {
    if b then 1 else 0
  }

  ghost function Count<K, V>(ops: seq<Op<K, V>>, limits: Limits): Tally {
    if ops == [] then Tally(0, 0, 0, 0, 0)
    else
      var before := ops[..|ops| - 1];
      CountOp(Count(before, limits), Run(before, limits), ops[|ops| - 1], limits)
  }

  ghost function CountOp<K, V>(t: Tally, s: Snapshot<K, V>, op: Op<K, V>, limits: Limits): Tally {
    match op
    case Get(key, now) =>
      t.(expired := t.expired + Bool(key in s.entries && Expired(s.entries[key], now, limits.ttl)))
    case Insert(key, value, now) =>
      if key in s.entries then t
      else if !Evicts(s, key, limits.capacity) then t.(absent := t.absent + 1)
      else
        t.(absent := t.absent + 1, passes := t.passes + 1, scanned := t.scanned + |s.entries|,
           dropped := t.dropped + |Victims(s.entries, DropCount(limits.capacity))|)
  }

  lemma RunGrows<K, V>(ops: seq<Op<K, V>>, limits: Limits)
    requires ops != []
    ensures Run(ops, limits) == Step(Run(ops[..|ops| - 1], limits), ops[|ops| - 1], limits)
  {
  }

  /** How one call changes the number of entries. */
  lemma StepSize<K(!new), V>(s: Snapshot<K, V>, op: Op<K, V>, limits: Limits)
    requires limits.capacity >= 1 && Sound(s, limits.capacity)
    ensures var size := |Step(s, op, limits).entries|;
            match op
            case Get(key, now) =>
              size == |s.entries| - Bool(key in s.entries && Expired(s.entries[key], now, limits.ttl))
            case Insert(key, value, now) =>
              size == if key in s.entries then |s.entries|
                      else if |s.entries| < limits.capacity then |s.entries| + 1
                      else limits.capacity - DropCount(limits.capacity) + 1
    ensures op.Insert? && Evicts(s, op.key, limits.capacity) ==>
              && |s.entries| == limits.capacity
              && |Victims(s.entries, DropCount(limits.capacity))| == DropCount(limits.capacity)
  {
    match op {
      case Get(key, now) =>
        RefreshedSize(s.entries, key, now, limits.ttl);
        var m := Refreshed(s.entries, key, now, limits.ttl);
        if key in m {
          InsertSize(m, key, m[key].(usedAt := s.clock + 1));
        }
      case Insert(key, value, now) =>
        var e := Entry(value, s.clock + 1, now);
        if Evicts(s, key, limits.capacity) {
          var m := Survivors(s.entries, DropCount(limits.capacity));
          assert key !in m;
          EvictionIsExact(s.entries, DropCount(limits.capacity));
          VictimCount(s.entries, DropCount(limits.capacity));
          hide Survivors, Victims;
          InsertSize(m, key, e);
        } else {
          InsertSize(s.entries, key, e);
        }
    }
  }

  lemma RefreshedSize<K, V>(m: Store<K, V>, key: K, now: int, ttl: Option<nat>)
    ensures |Refreshed(m, key, now, ttl)| == |m| - Bool(key in m && Expired(m[key], now, ttl))
  {
    if key in m {
      assert (m - {key}).Keys == m.Keys - {key};
      assert |m.Keys - {key}| == |m.Keys| - 1;
      assert |m.Keys| == |m| && |(m - {key}).Keys| == |m - {key}|;
    }
  }

  ghost predicate Balanced(t: Tally, size: nat, capacity: nat, drop: nat) {
    && t.absent == size + t.dropped + t.expired
    && t.dropped == t.passes * drop
    && t.scanned == t.passes * capacity
    && (t.passes >= 1 ==> t.absent >= capacity + 1 + (t.passes - 1) * drop)
  }

  lemma BalancedPass(t: Tally, capacity: nat, drop: nat)
    requires drop <= capacity && Balanced(t, capacity, capacity, drop)
    ensures var t' := Tally(t.absent + 1, t.passes + 1, t.dropped + drop, t.scanned + capacity, t.expired);
            Balanced(t', capacity - drop + 1, capacity, drop)
  {
    MulDistributes(t.passes, 1, drop);
    MulDistributes(t.passes, 1, capacity);
  }

  lemma BalancedElsewhere(t: Tally, size: nat, capacity: nat, drop: nat)
    requires Balanced(t, size, capacity, drop)
    ensures Balanced(t.(absent := t.absent + 1), size + 1, capacity, drop)
    ensures size >= 1 ==> Balanced(t.(expired := t.expired + 1), size - 1, capacity, drop)
  {
  }

  /**
   * Nothing is lost track of: every absent key inserted is still held, was dropped by a pass, or
   * expired.  A pass finds the cache full and drops one batch.
   */
  lemma {:induction false} Conservation<K(!new), V>(ops: seq<Op<K, V>>, limits: Limits)
    requires limits.capacity >= 1
    ensures Balanced(Count(ops, limits), |Run(ops, limits).entries|, limits.capacity, DropCount(limits.capacity))
  {
    if ops != [] {
      var before, op := ops[..|ops| - 1], ops[|ops| - 1];
      Conservation(before, limits);
      RunIsSound(before, limits);
      RunGrows(ops, limits);
      hide Balanced, Run, Step, Sound, DropCount, CountOp;
      BalancedStep(Count(before, limits), Run(before, limits), op, limits);
    }
  }

  lemma BalancedStep<K(!new), V>(t: Tally, s: Snapshot<K, V>, op: Op<K, V>, limits: Limits)
    requires limits.capacity >= 1 && Sound(s, limits.capacity)
    requires Balanced(t, |s.entries|, limits.capacity, DropCount(limits.capacity))
    ensures Balanced(
              CountOp(t, s, op, limits), |Step(s, op, limits).entries|, limits.capacity, DropCount(limits.capacity))
  {
    StepSize(s, op, limits);
    hide Balanced, Step, Sound, DropCount, Expired;
    BalancedElsewhere(t, |s.entries|, limits.capacity, DropCount(limits.capacity));
    if op.Insert? {
      BalancedInsert(t, s, op, limits);
    } else if op.key in s.entries {
      assert |s.entries| >= 1 by { assert op.key in s.entries.Keys; }
    }
  }

  lemma BalancedInsert<K(!new), V>(t: Tally, s: Snapshot<K, V>, op: Op<K, V>, limits: Limits)
    requires op.Insert?
    requires limits.capacity >= 1 && Sound(s, limits.capacity)
    requires Balanced(t, |s.entries|, limits.capacity, DropCount(limits.capacity))
    ensures Balanced(
              CountOp(t, s, op, limits), |Step(s, op, limits).entries|, limits.capacity, DropCount(limits.capacity))
  {
    hide Balanced, Step, Victims, Sound, DropCount;
    StepSize(s, op, limits);
    if Evicts(s, op.key, limits.capacity) {
      assert CountOp(t, s, op, limits)
          == Tally(t.absent + 1, t.passes + 1, t.dropped + DropCount(limits.capacity),
                   t.scanned + limits.capacity, t.expired);
      hide CountOp;
      BalancedPass(t, limits.capacity, DropCount(limits.capacity));
    } else {
      assert CountOp(t, s, op, limits) == if op.key in s.entries then t else t.(absent := t.absent + 1);
      hide CountOp;
      BalancedElsewhere(t, |s.entries|, limits.capacity, DropCount(limits.capacity));
    }
  }

  lemma PassesCost(t: Tally, size: nat, capacity: nat, drop: nat)
    requires Balanced(t, size, capacity, drop) && capacity <= 31 * drop
    ensures t.scanned <= 31 * t.absent
  {
    MulMonotone(capacity, 31 * drop, t.passes);
    MulAssociates(t.passes, drop, 31);
  }

  /**
   * Amortised eviction: e passes need at least capacity + 1 + (e - 1) * max(capacity / 16, 1)
   * insertions of absent keys, so the entries scanned under the lock are at most 31 for each.
   */
  lemma AmortisedEviction<K(!new), V>(ops: seq<Op<K, V>>, limits: Limits)
    requires limits.capacity >= 1
    ensures var t := Count(ops, limits);
            && (t.passes >= 1 ==>
                  t.absent >= limits.capacity + 1 + (t.passes - 1) * DropCount(limits.capacity))
            && t.scanned <= 31 * t.absent
  {
    Conservation(ops, limits);
    assert limits.capacity <= 31 * DropCount(limits.capacity);
    hide Count, DropCount, Run;
    PassesCost(Count(ops, limits), |Run(ops, limits).entries|, limits.capacity, DropCount(limits.capacity));
  }
}
