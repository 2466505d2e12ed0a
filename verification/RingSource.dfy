/**
 * Resolving rings over a daemon and a cache shared with every other request.
 *
 * Other requests use the cache between any two operations of this one, so anything in it may be
 * evicted at any point; and any call to the daemon may fail or be cut short.
 */
module RingSource {
  import opened Words
  import opened Hex
  import opened Caching
  import opened CacheRuns
  import opened SharedCache
  import opened Rings

  /** What can go wrong with one call. */
  datatype Fault = Unreachable | Short

  /** monerod: one bad index fails the whole request. */
  class Daemon {
    const table: Table
    const faults: map<nat, Fault>
    var calls: nat
    ghost var asked: seq<seq<OutRequest>>

    constructor (table: Table, faults: map<nat, Fault>)
      ensures this.table == table && this.faults == faults && calls == 0 && asked == []
    {
      this.table, this.faults, calls, asked := table, faults, 0, [];
    }

    method GetOuts(requests: seq<OutRequest>) returns (r: Option<seq<OutKey>>)
      modifies this
      ensures calls == old(calls) + 1 && asked == old(asked) + [requests]
      ensures r == Answer(requests, table, faults, old(calls))
    {
      r := Answer(requests, table, faults, calls);
      calls, asked := calls + 1, asked + [requests];
    }
  }

  function Outs(requests: seq<OutRequest>, table: Table): seq<OutKey>
    requires AllIn(requests, table)
  {
    seq(|requests|, i requires 0 <= i < |requests| => table[requests[i]])
  }

  function Answer(requests: seq<OutRequest>, table: Table, faults: map<nat, Fault>, call: nat): Option<seq<OutKey>> {
    if call in faults && faults[call] == Unreachable then None
    else if !AllIn(requests, table) then None
    else if call in faults && requests != [] then Some(Outs(requests, table)[..|requests| - 1])
    else Some(Outs(requests, table))
  }

  /** A response of the right length is the whole answer, in the order of the requests. */
  lemma FullAnswer(requests: seq<OutRequest>, table: Table, faults: map<nat, Fault>, call: nat)
    ensures var r := Answer(requests, table, faults, call);
            && (r.Some? ==> AllIn(requests, table))
            && (r.Some? && |r.value| == |requests| ==> r.value == Outs(requests, table))
            && (call !in faults && AllIn(requests, table) ==> r == Some(Outs(requests, table)))
  {
  }

  // ---------------------------------------------------------------- the shared cache

  /** An output at an index never changes, so what is cached is what the table holds. */
  ghost predicate Consistent(m: Store<OutRequest, OutKey>, came: set<(OutRequest, OutKey)>, table: Table) {
    && (forall k :: k in m ==> k in table && m[k].value == table[k])
    && (forall p :: p in came ==> p.0 in table && p.1 == table[p.0])
  }

  predicate HeldAll(requests: seq<OutRequest>, m: Store<OutRequest, OutKey>) {
    forall k :: k in requests ==> k in m
  }

  lemma AppendedOnce(s: seq<seq<OutRequest>>, a: seq<OutRequest>)
    ensures forall w :: s + [a] == s + [w] ==> w == a
  {
    forall w | s + [a] == s + [w] ensures w == a {
      assert (s + [a])[|s|] == (s + [w])[|s|];
    }
  }

  lemma HeldNone(m: Store<OutRequest, OutKey>)
    ensures HeldAll([], m)
  {
  }

  lemma HeldMore(
      requests: seq<OutRequest>, i: nat, before: Store<OutRequest, OutKey>, after: Store<OutRequest, OutKey>)
    requires i < |requests| && HeldAll(requests[..i], before) && after.Keys == before.Keys + {requests[i]}
    ensures HeldAll(requests[..i + 1], after)
  {
    assert forall k :: k in before <==> k in before.Keys;
    assert forall k :: k in after <==> k in after.Keys;
    assert requests[..i + 1] == requests[..i] + [requests[i]];
  }

  lemma SameSize(a: Store<OutRequest, OutKey>, b: Store<OutRequest, OutKey>)
    ensures a.Keys == b.Keys ==> |a| == |b|
  {
    assert |a| == |a.Keys| && |b| == |b.Keys|;
  }

  class Source {
    const outs: Shared<OutRequest, OutKey>
    const daemon: Daemon

    ghost predicate Valid()
      reads outs.cache
    {
      outs.Valid() && Consistent(outs.cache.entries, outs.Brought(), daemon.table)
    }

    /** A fresh source over its own cache; the real one holds 65,536 outputs. */
    constructor (daemon: Daemon, capacity: nat, traffic: seq<seq<Op<OutRequest, OutKey>>>)
      requires Consistent(map[], Stored(traffic), daemon.table)
      ensures Valid() && fresh(outs) && this.daemon == daemon && outs.cache.entries == map[]
    {
      outs := new Shared<OutRequest, OutKey>(capacity, traffic);
      this.daemon := daemon;
    }

    /** A lookup: a hit is the table's own entry, and a miss says nothing. */
    method Lookup(key: OutRequest) returns (r: Option<OutKey>)
      requires Valid()
      modifies outs, outs.cache
      ensures Valid()
      ensures r.Some? ==> key in daemon.table && r.value == daemon.table[key]
      ensures outs.Quiet() ==> (r.Some? <==> key in old(outs.cache.entries))
      ensures outs.Quiet() ==> outs.cache.entries.Keys == old(outs.cache.entries).Keys
    {
      hide Sound;
      r := outs.Lookup(key);
    }

    method Store(key: OutRequest, value: OutKey)
      requires Valid()
      requires key in daemon.table && value == daemon.table[key]
      modifies outs, outs.cache
      ensures Valid()
      ensures outs.Quiet() && |old(outs.cache.entries)| < outs.cache.limits.capacity ==>
                && outs.cache.entries.Keys == old(outs.cache.entries).Keys + {key}
                && |outs.cache.entries| <= |old(outs.cache.entries)| + 1
    {
      hide Sound;
      outs.Store(key, value);
    }

    /**
     * One input, in a call of its own: from the cache if every member is there, otherwise from the
     * daemon, whole.
     */
    method ResolveRing(input: TxInToKey) returns (r: ResolvedInput)
      requires Valid()
      modifies outs, outs.cache, daemon
      ensures Valid()
      ensures r == Resolved(input, daemon.table)
              || (old(daemon.calls) in daemon.faults && daemon.calls == old(daemon.calls) + 1
                  && Usable(input, daemon.table) && r == Unresolved(input, true))
      ensures Shows(r, input, daemon.table) || (old(daemon.calls) in daemon.faults && Withheld(r, input))
      ensures daemon.calls <= old(daemon.calls) + 1
      ensures outs.Quiet() && Members(input).Some? && HeldAll(Members(input).value, old(outs.cache.entries)) ==>
                daemon.calls == old(daemon.calls)
      ensures outs.Quiet() && Members(input).Some? && !r.ringUnavailable
              && |old(outs.cache.entries)| + |Members(input).value| <= outs.cache.limits.capacity ==>
                HeldAll(Members(input).value, outs.cache.entries)
    {
      hide Members, Consistent, Shows, Withheld, Sound, Resolved;
      ResolvedShows(input, daemon.table);
      UnresolvedIsWithheld(input);
      var members := RingMembers(input);
      ResolvedIs(input, daemon.table);
      if members.None? {
        return Unresolved(input, true);
      }
      var requests := members.value;
      if requests == [] {
        assert RingOf([], daemon.table) == [];
        return Unresolved(input, false);
      }
      var cached := LookupAll(requests);
      if cached.Some? {
        return Rendered(input, requests, cached.value);
      }
      ghost var call := daemon.calls;
      var response := daemon.GetOuts(requests);
      FullAnswer(requests, daemon.table, daemon.faults, call);
      hide Answer;
      if response.None? || |response.value| != |requests| {
        return Unresolved(input, true);
      }
      StoreAll(requests, response.value);
      r := Rendered(input, requests, response.value);
    }

    static function Rendered(input: TxInToKey, requests: seq<OutRequest>, found: seq<OutKey>): ResolvedInput
      requires |requests| == |found|
    {
      ResolvedInput(input.amount, HashOrZero(input.kImage),
                    seq(|requests|, i requires 0 <= i < |requests| => ToMember(requests[i], found[i])), false)
    }

    /** Every member looked up, whether or not an earlier one was missing. */
    method LookupAll(requests: seq<OutRequest>) returns (r: Option<seq<OutKey>>)
      requires Valid()
      modifies outs, outs.cache
      ensures Valid()
      ensures r.Some? ==> AllIn(requests, daemon.table) && r.value == Outs(requests, daemon.table)
      ensures outs.Quiet() ==> (r.Some? <==> HeldAll(requests, old(outs.cache.entries)))
      ensures outs.Quiet() ==> outs.cache.entries.Keys == old(outs.cache.entries).Keys
    {
      hide Consistent, Sound;
      var found: seq<OutKey>, complete := [], true;
      for i := 0 to |requests|
        invariant Valid()
        invariant complete ==> |found| == i
        invariant complete ==> forall k :: 0 <= k < i ==>
                    requests[k] in daemon.table && found[k] == daemon.table[requests[k]]
        invariant outs.Quiet() ==> outs.cache.entries.Keys == old(outs.cache.entries).Keys
        invariant outs.Quiet() ==> (complete <==> HeldAll(requests[..i], old(outs.cache.entries)))
      {
        assert requests[..i + 1] == requests[..i] + [requests[i]];
        var hit := Lookup(requests[i]);
        match hit {
          case Some(out) => found := found + [out];
          case None => complete := false;
        }
      }
      assert requests[..|requests|] == requests;
      r := if complete then Some(found) else None;
    }

    method StoreAll(requests: seq<OutRequest>, found: seq<OutKey>)
      requires Valid()
      requires AllIn(requests, daemon.table) && found == Outs(requests, daemon.table)
      modifies outs, outs.cache
      ensures Valid()
      ensures outs.Quiet() && |old(outs.cache.entries)| + |requests| <= outs.cache.limits.capacity ==>
                HeldAll(requests, outs.cache.entries)
    {
      hide Consistent, Sound;
      ghost var roomy := outs.Quiet() && |outs.cache.entries| + |requests| <= outs.cache.limits.capacity;
      for i := 0 to |requests|
        invariant Valid()
        invariant roomy ==> |outs.cache.entries| <= |old(outs.cache.entries)| + i
        invariant roomy ==> HeldAll(requests[..i], outs.cache.entries)
      {
        assert requests[..i + 1] == requests[..i] + [requests[i]];
        ghost var before := outs.cache.entries;
        assert forall k :: k in before <==> k in before.Keys;
        Store(requests[i], found[i]);
        assert forall k :: k in outs.cache.entries <==> k in outs.cache.entries.Keys;
      }
      assert requests[..|requests|] == requests;
    }

    /** Every input's members, if every input has some. */
    method CollectRings(inputs: seq<TxInToKey>) returns (r: Option<seq<seq<OutRequest>>>)
      ensures r.Some? ==> |r.value| == |inputs|
      ensures r.Some? ==> forall i :: 0 <= i < |inputs| ==> Members(inputs[i]) == Some(r.value[i]) && r.value[i] != []
      ensures r.None? ==> exists i :: 0 <= i < |inputs| && !Usable(inputs[i], daemon.table)
    {
      hide Members;
      var rings := [];
      for i := 0 to |inputs|
        invariant |rings| == i
        invariant forall k :: 0 <= k < i ==> Members(inputs[k]) == Some(rings[k]) && rings[k] != []
      {
        var members := RingMembers(inputs[i]);
        if members == None || members == Some([]) {
          assert !Usable(inputs[i], daemon.table);
          return None;
        }
        rings := rings + [members.value];
      }
      r := Some(rings);
    }

    /** Sort the members into those the cache has and those to ask for, each looked at once. */
    method Sieve(members: seq<OutRequest>)
      returns (known: map<OutRequest, OutKey>, wanted: seq<OutRequest>)
      requires Valid()
      modifies outs, outs.cache
      ensures Valid()
      ensures forall k :: k in known ==> k in daemon.table && known[k] == daemon.table[k]
      ensures forall k :: k in members <==> k in known || k in wanted
      ensures forall i, j :: 0 <= i < j < |wanted| ==> wanted[i] != wanted[j]
      ensures outs.Quiet() ==> forall k :: k in wanted ==> k !in old(outs.cache.entries)
      ensures outs.Quiet() ==> outs.cache.entries.Keys == old(outs.cache.entries).Keys
    {
      hide Consistent, Sound;
      known, wanted := map[], [];
      var seen: set<OutRequest> := {};
      for i := 0 to |members|
        invariant Valid()
        invariant forall k :: k in known ==> k in daemon.table && known[k] == daemon.table[k]
        invariant forall k :: k in seen <==> k in members[..i]
        invariant forall k :: k in seen <==> k in known || k in wanted
        invariant forall a, b :: 0 <= a < b < |wanted| ==> wanted[a] != wanted[b]
        invariant outs.Quiet() ==> forall k :: k in wanted ==> k !in old(outs.cache.entries)
        invariant outs.Quiet() ==> outs.cache.entries.Keys == old(outs.cache.entries).Keys
      {
        var key := members[i];
        assert members[..i + 1] == members[..i] + [key];
        if key !in seen {
          seen := seen + {key};
          var hit := Lookup(key);
          match hit {
            case Some(out) => known := known[key := out];
            case None => wanted := wanted + [key];
          }
        }
      }
      assert members[..|members|] == members;
    }

    /** Add what the daemon answered, keeping a copy that no eviction can reach. */
    method Learn(known: map<OutRequest, OutKey>, wanted: seq<OutRequest>, found: seq<OutKey>)
      returns (known': map<OutRequest, OutKey>)
      requires Valid()
      requires AllIn(wanted, daemon.table) && found == Outs(wanted, daemon.table)
      requires forall k :: k in known ==> k in daemon.table && known[k] == daemon.table[k]
      modifies outs, outs.cache
      ensures Valid()
      ensures forall k :: k in known' ==> k in daemon.table && known'[k] == daemon.table[k]
      ensures forall k :: k in known || k in wanted ==> k in known'
      ensures outs.Quiet() && |old(outs.cache.entries)| + |wanted| <= outs.cache.limits.capacity ==>
                HeldAll(wanted, outs.cache.entries)
    {
      hide Consistent, Sound, HeldAll;
      HeldNone(outs.cache.entries);
      ghost var roomy := outs.Quiet() && |outs.cache.entries| + |wanted| <= outs.cache.limits.capacity;
      known' := known;
      assert wanted[..0] == [];
      for i := 0 to |wanted|
        invariant Valid()
        invariant forall k :: k in known' ==> k in daemon.table && known'[k] == daemon.table[k]
        invariant forall k :: k in known || k in wanted[..i] ==> k in known'
        invariant roomy ==> |outs.cache.entries| <= |old(outs.cache.entries)| + i
        invariant roomy ==> HeldAll(wanted[..i], outs.cache.entries)
      {
        assert wanted[..i + 1] == wanted[..i] + [wanted[i]];
        ghost var before := outs.cache.entries;
        Store(wanted[i], found[i]);
        if roomy {
          HeldMore(wanted, i, before, outs.cache.entries);
        }
        known' := known'[wanted[i] := found[i]];
      }
      assert wanted[..|wanted|] == wanted;
    }

    /**
     * All inputs in one call.  Some is the whole answer; None sends the caller to one call per
     * input, and without faults happens only when an input could not have been batched.
     */
    method ResolveRingsTogether(inputs: seq<TxInToKey>) returns (r: Option<seq<ResolvedInput>>)
      requires Valid()
      modifies outs, outs.cache, daemon
      ensures Valid()
      ensures r.Some? ==> r.value == ResolvedAll(inputs, daemon.table)
      ensures r.None? && daemon.faults == map[] ==> exists i :: 0 <= i < |inputs| && !Usable(inputs[i], daemon.table)
      ensures OneRequest(old(daemon.asked), daemon.asked, inputs) && daemon.calls <= old(daemon.calls) + 1
      ensures outs.Quiet() ==> forall w :: daemon.asked == old(daemon.asked) + [w] ==>
                && (forall k :: k in w ==> k !in old(outs.cache.entries))
                && (r.Some? && |old(outs.cache.entries)| + |w| <= outs.cache.limits.capacity ==>
                      HeldAll(w, outs.cache.entries))
    {
      hide Members, Consistent, Usable, Resolved, HeldAll, Sound;
      ghost var first := outs.cache.entries;
      var rings := CollectRings(inputs);
      if rings.None? {
        return None;
      }
      var members := Flat(rings.value);
      var known, wanted := Sieve(members);
      assert outs.Quiet() ==> |outs.cache.entries| == |first| by { SameSize(outs.cache.entries, first); }
      hide Flat;
      if wanted != [] {
        ghost var call := daemon.calls;
        var response := daemon.GetOuts(wanted);
        AppendedOnce(old(daemon.asked), wanted);
        WantedOnce(inputs, rings.value, wanted);
        FullAnswer(wanted, daemon.table, daemon.faults, call);
        hide Answer;
        if response.None? {
          if daemon.faults == map[] {
            BadInput(inputs, rings.value, wanted, daemon.table);
          }
          return None;
        }
        if |response.value| != |wanted| {
          return None;
        }
        known := Learn(known, wanted, response.value);
      }
      r := Some(Assemble(inputs, rings.value, known));
      AssembledAll(inputs, rings.value, known, daemon.table);
    }

    static function Assemble(
        inputs: seq<TxInToKey>, rings: seq<seq<OutRequest>>, known: map<OutRequest, OutKey>): seq<ResolvedInput>
      requires |inputs| == |rings|
    {
      seq(|inputs|, i requires 0 <= i < |inputs| => Assembled(inputs[i], rings[i], known))
    }

    static lemma AssembledAll(
        inputs: seq<TxInToKey>, rings: seq<seq<OutRequest>>, known: map<OutRequest, OutKey>, table: Table)
      requires |inputs| == |rings|
      requires forall i :: 0 <= i < |inputs| ==> Members(inputs[i]) == Some(rings[i])
      requires forall k :: k in Flat(rings) ==> k in known
      requires forall k :: k in known ==> k in table && known[k] == table[k]
      ensures Assemble(inputs, rings, known) == ResolvedAll(inputs, table)
    {
      hide Flat, Members, Resolved, Assembled;
      forall i | 0 <= i < |inputs| ensures Assembled(inputs[i], rings[i], known) == Resolved(inputs[i], table) {
        forall k | 0 <= k < |rings[i]| ensures rings[i][k] in known {
          FlatHolds(rings, i, k);
        }
        AssembledIsResolved(inputs[i], rings[i], known, table);
      }
    }

    /** A refused batch holds an index that is not in the table, and some input asked for it. */
    static lemma BadInput(inputs: seq<TxInToKey>, rings: seq<seq<OutRequest>>, wanted: seq<OutRequest>, table: Table)
      requires |inputs| == |rings|
      requires forall i :: 0 <= i < |inputs| ==> Members(inputs[i]) == Some(rings[i])
      requires forall k :: k in wanted ==> k in Flat(rings)
      requires !AllIn(wanted, table)
      ensures exists i :: 0 <= i < |inputs| && !Usable(inputs[i], table)
    {
      hide Members, Flat;
      var w :| 0 <= w < |wanted| && wanted[w] !in table;
      assert wanted[w] in wanted;
      FlatOnly(rings, wanted[w]);
      var i, k :| 0 <= i < |rings| && 0 <= k < |rings[i]| && rings[i][k] == wanted[w];
      assert rings[i][k] !in table;
      assert !Usable(inputs[i], table);
    }

    /** At most one request, for members of these inputs' rings, none of them twice. */
    ghost static predicate OneRequest(
      before: seq<seq<OutRequest>>, after: seq<seq<OutRequest>>, inputs: seq<TxInToKey>)
    {
      after == before || exists wanted :: after == before + [wanted] && Frugal(wanted, inputs)
    }

    ghost static predicate Frugal(wanted: seq<OutRequest>, inputs: seq<TxInToKey>) {
      && (forall i, j :: 0 <= i < j < |wanted| ==> wanted[i] != wanted[j])
      && (forall k :: k in wanted ==>
            exists i :: 0 <= i < |inputs| && Members(inputs[i]).Some? && k in Members(inputs[i]).value)
    }

    static lemma WantedOnce(inputs: seq<TxInToKey>, rings: seq<seq<OutRequest>>, wanted: seq<OutRequest>)
      requires |inputs| == |rings|
      requires forall i :: 0 <= i < |inputs| ==> Members(inputs[i]) == Some(rings[i])
      requires forall k :: k in wanted ==> k in Flat(rings)
      requires forall i, j :: 0 <= i < j < |wanted| ==> wanted[i] != wanted[j]
      ensures Frugal(wanted, inputs)
    {
      hide Members, Flat;
      forall key | key in wanted
        ensures exists i :: 0 <= i < |inputs| && Members(inputs[i]).Some? && key in Members(inputs[i]).value
      {
        FlatOnly(rings, key);
        var i, k :| 0 <= i < |rings| && 0 <= k < |rings[i]| && rings[i][k] == key;
        assert key in Members(inputs[i]).value;
      }
    }

    /**
     * Every input of a transaction, in order.  Whatever is in the cache, whatever is evicted on the
     * way, each input gets what it would get alone, so one bad input never blanks another.  With
     * faults, a ring that had to be asked for may come back unavailable instead, and nothing else.
     */
    method ResolveRings(vin: seq<TxIn>) returns (r: seq<ResolvedInput>)
      requires Valid()
      modifies outs, outs.cache, daemon
      ensures Valid()
      ensures var inputs := KeyInputs(vin);
              && |r| == |inputs|
              && (forall i :: 0 <= i < |inputs| ==>
                    || r[i] == Resolved(inputs[i], daemon.table)
                    || (daemon.faults != map[] && Usable(inputs[i], daemon.table)
                        && r[i] == Unresolved(inputs[i], true)))
              && (daemon.faults == map[] ==> r == ResolvedAll(inputs, daemon.table))
              && (forall i :: 0 <= i < |inputs| ==>
                    || Shows(r[i], inputs[i], daemon.table)
                    || (daemon.faults != map[] && Withheld(r[i], inputs[i])))
              && daemon.calls <= old(daemon.calls) + |inputs| + (if |inputs| > 1 then 1 else 0)
              && (daemon.faults == map[] && (forall i :: 0 <= i < |inputs| ==> Usable(inputs[i], daemon.table)) ==>
                    && daemon.calls <= old(daemon.calls) + 1
                    && (|inputs| > 1 ==> OneRequest(old(daemon.asked), daemon.asked, inputs)))
    {
      hide Members, Consistent, Usable, Resolved, KeyInputs, OneRequest, ResolvedAll, Shows,
        Withheld, Unresolved, Sound;
      var inputs := KeyInputs(vin);
      if |inputs| > 1 {
        var together := ResolveRingsTogether(inputs);
        if together.Some? {
          ResolvedAllIs(together.value, inputs, daemon.table);
          AllShow(together.value, inputs, daemon.table);
          return together.value;
        }
      }
      r := [];
      for i := 0 to |inputs|
        invariant Valid() && |r| == i
        invariant forall k :: 0 <= k < i ==>
                    || r[k] == Resolved(inputs[k], daemon.table)
                    || (daemon.faults != map[] && Usable(inputs[k], daemon.table)
                        && r[k] == Unresolved(inputs[k], true))
        invariant daemon.calls <= old(daemon.calls) + i + (if |inputs| > 1 then 1 else 0)
      {
        var one := ResolveRing(inputs[i]);
        r := r + [one];
      }
      ResolvedAllIs(r, inputs, daemon.table);
      AllShow(r, inputs, daemon.table);
    }
  }
}
