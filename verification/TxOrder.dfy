/**
 * Handing fetched transactions back in the order they were asked for, to one caller or to the
 * blocks of a whole range.
 */
module TxOrder {
  import opened Words
  import opened Numerals

  /** A transaction as the daemon reports it; `confirmations` counts down from a moving tip. */
  datatype TxEntry = TxEntry(txHash: Text, body: Text, inPool: bool, blockHeight: nat, confirmations: nat) {
    /** The part of an entry that does not age. */
    function Stable(): TxEntry {
      this.(confirmations := 0)
    }
  }

  type TxMap = map<Hash32, TxEntry>

  /** Entries that agree but for the confirmations, which is all that ages. */
  lemma StableEntries(a: TxEntry, b: TxEntry)
    ensures a.Stable() == b.Stable() <==>
              a.txHash == b.txHash && a.body == b.body && a.inPool == b.inPool && a.blockHeight == b.blockHeight
  {
  }

  /** `hashes.iter().filter_map(|h| found.remove(h))`. */
  function InRequestedOrder(hashes: seq<Hash32>, found: TxMap): seq<TxEntry> {
    if hashes == [] then []
    else if hashes[0] in found then [found[hashes[0]]] + InRequestedOrder(hashes[1..], found - {hashes[0]})
    else InRequestedOrder(hashes[1..], found)
  }

  /** The requested hashes that are known, each where it was first asked for. */
  function KnownHashes(hashes: seq<Hash32>, known: set<Hash32>): seq<Hash32> {
    if hashes == [] then []
    else if hashes[0] in known then [hashes[0]] + KnownHashes(hashes[1..], known - {hashes[0]})
    else KnownHashes(hashes[1..], known)
  }

  function Lookup(hashes: seq<Hash32>, found: TxMap): seq<TxEntry>
    requires forall h :: h in hashes ==> h in found
  {
    seq(|hashes|, i requires 0 <= i < |hashes| => found[hashes[i]])
  }

  function StableAll(entries: seq<TxEntry>): seq<TxEntry> {
    seq(|entries|, i requires 0 <= i < |entries| => entries[i].Stable())
  }

  /** Where a hash is first asked for. */
  function FirstIndex(hashes: seq<Hash32>, h: Hash32): nat
    requires h in hashes
  {
    if hashes[0] == h then 0 else 1 + FirstIndex(hashes[1..], h)
  }

  predicate NoDuplicates(hashes: seq<Hash32>) {
    forall i, j :: 0 <= i < j < |hashes| ==> hashes[i] != hashes[j]
  }

  /** Each known hash asked for is listed once, and no other is. */
  lemma {:induction false} KnownHashesSpec(hashes: seq<Hash32>, known: set<Hash32>)
    ensures forall h :: h in KnownHashes(hashes, known) <==> h in hashes && h in known
    ensures NoDuplicates(KnownHashes(hashes, known))
  {
    if hashes != [] {
      var h, rest := hashes[0], hashes[1..];
      assert hashes == [h] + rest;
      KnownHashesSpec(rest, known - {h});
      KnownHashesSpec(rest, known);
    }
  }

  /** What was asked for first is listed first. */
  lemma {:induction false} KnownHashesOrder(hashes: seq<Hash32>, known: set<Hash32>, i: nat, j: nat)
    requires i < j < |KnownHashes(hashes, known)|
    ensures var r := KnownHashes(hashes, known);
            r[i] in hashes && r[j] in hashes && FirstIndex(hashes, r[i]) < FirstIndex(hashes, r[j])
    decreases hashes
  {
    var h, rest := hashes[0], hashes[1..];
    var r := KnownHashes(hashes, known);
    KnownHashesSpec(hashes, known);
    KnownHashesSpec(rest, known - {h});
    assert r[i] in r && r[j] in r;
    if h in known {
      var tail := KnownHashes(rest, known - {h});
      assert r == [h] + tail;
      assert r[j] == tail[j - 1] && r[j] in tail;
      if i > 0 {
        KnownHashesOrder(rest, known - {h}, i - 1, j - 1);
        assert r[i] == tail[i - 1] && r[i] in tail;
      }
    } else {
      KnownHashesOrder(rest, known, i, j);
    }
  }

  /** The answer is the known hashes, looked up. */
  lemma {:induction false} InRequestedOrderSpec(hashes: seq<Hash32>, found: TxMap)
    ensures forall h :: h in KnownHashes(hashes, found.Keys) ==> h in found
    ensures InRequestedOrder(hashes, found) == Lookup(KnownHashes(hashes, found.Keys), found)
  {
    KnownHashesSpec(hashes, found.Keys);
    if hashes != [] {
      var h, rest := hashes[0], hashes[1..];
      if h in found {
        var less := found - {h};
        assert less.Keys == found.Keys - {h};
        InRequestedOrderSpec(rest, less);
        KnownHashesSpec(rest, less.Keys);
        assert Lookup(KnownHashes(rest, less.Keys), less) == Lookup(KnownHashes(rest, less.Keys), found);
      } else {
        InRequestedOrderSpec(rest, found);
      }
    }
  }

  /** Only the requested part of what was found matters. */
  lemma {:induction false} KnownHashesRestrict(hashes: seq<Hash32>, known: set<Hash32>, known': set<Hash32>)
    requires forall h :: h in hashes ==> (h in known <==> h in known')
    ensures KnownHashes(hashes, known) == KnownHashes(hashes, known')
  {
    if hashes != [] {
      var h, rest := hashes[0], hashes[1..];
      assert forall x :: x in rest ==> x in hashes;
      if h in known {
        KnownHashesRestrict(rest, known - {h}, known' - {h});
      } else {
        KnownHashesRestrict(rest, known, known');
      }
    }
  }

  lemma InRequestedOrderRestrict(hashes: seq<Hash32>, a: TxMap, b: TxMap)
    requires forall h :: h in hashes ==> (h in a <==> h in b)
    requires forall h :: h in hashes && h in a ==> a[h].Stable() == b[h].Stable()
    ensures StableAll(InRequestedOrder(hashes, a)) == StableAll(InRequestedOrder(hashes, b))
  {
    KnownHashesRestrict(hashes, a.Keys, b.Keys);
    KnownHashesSpec(hashes, a.Keys);
    InRequestedOrderSpec(hashes, a);
    InRequestedOrderSpec(hashes, b);
    hide InRequestedOrder, KnownHashes;
  }

  // ---------------------------------------------------------------- a range of blocks

  /** `hashes` of one block after another, each taking what it lists out of the same map. */
  function Distribute(lists: seq<seq<Hash32>>, found: TxMap): seq<seq<TxEntry>> {
    if lists == [] then []
    else [InRequestedOrder(lists[0], found)] + Distribute(lists[1..], found - Listed(lists[0]))
  }

  function Listed(hashes: seq<Hash32>): set<Hash32> {
    set h | h in hashes
  }

  /** The same lists, each answered on its own. */
  function Separately(lists: seq<seq<Hash32>>, found: TxMap): seq<seq<TxEntry>> {
    if lists == [] then []
    else [InRequestedOrder(lists[0], found)] + Separately(lists[1..], found)
  }

  /** No known transaction is listed by two blocks of the range. */
  ghost predicate Apart(lists: seq<seq<Hash32>>, known: set<Hash32>) {
    forall i, j :: 0 <= i < j < |lists| ==> Listed(lists[i]) * Listed(lists[j]) * known == {}
  }

  lemma {:induction false} SeparatelyRestrict(lists: seq<seq<Hash32>>, found: TxMap, gone: set<Hash32>)
    requires forall i :: 0 <= i < |lists| ==> Listed(lists[i]) * gone * found.Keys == {}
    ensures Separately(lists, found - gone) == Separately(lists, found)
  {
    if lists != [] {
      var first := lists[0];
      assert Listed(first) * gone * found.Keys == {};
      forall h | h in first ensures h in found <==> h in found - gone {
        assert h in Listed(first) * gone * found.Keys <==> h in gone && h in found;
      }
      SameOrder(first, found, found - gone);
      SeparatelyRestrict(lists[1..], found, gone);
    }
  }

  lemma SameOrder(hashes: seq<Hash32>, a: TxMap, b: TxMap)
    requires forall h :: h in hashes ==> (h in a <==> h in b)
    requires forall h :: h in hashes && h in a ==> a[h] == b[h]
    ensures InRequestedOrder(hashes, a) == InRequestedOrder(hashes, b)
  {
    KnownHashesRestrict(hashes, a.Keys, b.Keys);
    KnownHashesSpec(hashes, a.Keys);
    InRequestedOrderSpec(hashes, a);
    InRequestedOrderSpec(hashes, b);
    hide InRequestedOrder, KnownHashes;
  }

  /** Blocks that share nothing known lose nothing by sharing the map. */
  lemma {:induction false} DistributeApart(lists: seq<seq<Hash32>>, found: TxMap)
    requires Apart(lists, found.Keys)
    ensures Distribute(lists, found) == Separately(lists, found)
  {
    if lists != [] {
      var first, rest := lists[0], lists[1..];
      var left := found - Listed(first);
      assert left.Keys <= found.Keys;
      forall i, j | 0 <= i < j < |rest| ensures Listed(rest[i]) * Listed(rest[j]) * left.Keys == {} {
        assert Listed(lists[i + 1]) * Listed(lists[j + 1]) * found.Keys == {};
      }
      DistributeApart(rest, left);
      forall i | 0 <= i < |rest| ensures Listed(rest[i]) * Listed(first) * found.Keys == {} {
        assert Listed(lists[0]) * Listed(lists[i + 1]) * found.Keys == {};
      }
      SeparatelyRestrict(rest, found, Listed(first));
    }
  }

  /** The different known hashes of a list: the first one, if known, and those of the rest. */
  lemma KnownUnfolds(hashes: seq<Hash32>, found: TxMap)
    requires hashes != []
    ensures var h, rest := hashes[0], hashes[1..];
            |Listed(hashes) * found.Keys|
            == if h in found then 1 + |Listed(rest) * (found - {h}).Keys| else |Listed(rest) * found.Keys|
  {
    var h, rest := hashes[0], hashes[1..];
    assert hashes == [h] + rest;
    assert Listed(hashes) == Listed(rest) + {h};
    hide Listed;
    if h in found {
      var later := Listed(rest) * (found - {h}).Keys;
      assert (found - {h}).Keys == found.Keys - {h};
      assert h !in later && Listed(hashes) * found.Keys == later + {h};
    } else {
      assert Listed(hashes) * found.Keys == Listed(rest) * found.Keys;
    }
  }

  /** One answer holds as many transactions as there are different known hashes in the list. */
  lemma {:induction false} AnswerSize(hashes: seq<Hash32>, found: TxMap)
    ensures |InRequestedOrder(hashes, found)| == |Listed(hashes) * found.Keys|
  {
    if hashes == [] {
      assert Listed(hashes) * found.Keys == {};
    } else {
      var h, rest := hashes[0], hashes[1..];
      KnownUnfolds(hashes, found);
      hide Listed;
      if h in found {
        AnswerSize(rest, found - {h});
      } else {
        AnswerSize(rest, found);
      }
    }
  }

  lemma {:induction false} DistributeSize(lists: seq<seq<Hash32>>, found: TxMap, j: nat)
    requires j < |lists|
    ensures |Distribute(lists, found)| == |lists|
    ensures |Distribute(lists, found)[j]| <= |Listed(lists[j]) * found.Keys|
    decreases |lists|
  {
    var first, rest := lists[0], lists[1..];
    AnswerSize(first, found);
    DistributeLength(lists, found);
    hide InRequestedOrder;
    if j > 0 {
      var left := found - Listed(first);
      DistributeSize(rest, left, j - 1);
      SubsetSize(Listed(rest[j - 1]) * left.Keys, Listed(rest[j - 1]) * found.Keys);
    }
  }

  /** If the shared map answers every block in full, no later block shares anything with the first. */
  lemma FirstApart(lists: seq<seq<Hash32>>, found: TxMap, j: nat)
    requires Distribute(lists, found) == Separately(lists, found) && 0 < j < |lists|
    ensures Listed(lists[0]) * Listed(lists[j]) * found.Keys == {}
  {
    var first, rest := lists[0], lists[1..];
    var left := found - Listed(first);
    assert Distribute(rest, left) == Separately(rest, found) by {
      assert Distribute(lists, found)[1..] == Distribute(rest, left);
      assert Separately(lists, found)[1..] == Separately(rest, found);
    }
    DistributeSize(rest, left, j - 1);
    SeparatelyAt(rest, found, j - 1);
    AnswerSize(rest[j - 1], found);
    hide Distribute, Separately, InRequestedOrder;
    var a, b := Listed(rest[j - 1]) * left.Keys, Listed(rest[j - 1]) * found.Keys;
    SubsetSize(a, b);
    forall h ensures h !in Listed(first) * Listed(lists[j]) * found.Keys {
      assert h in b <==> h in a;
    }
  }

  lemma {:induction false} DistributeNeedsApart(lists: seq<seq<Hash32>>, found: TxMap)
    requires Distribute(lists, found) == Separately(lists, found)
    ensures Apart(lists, found.Keys)
  {
    if lists != [] {
      var first, rest := lists[0], lists[1..];
      var left := found - Listed(first);
      assert Distribute(rest, left) == Separately(rest, found) by {
        assert Distribute(lists, found)[1..] == Distribute(rest, left);
        assert Separately(lists, found)[1..] == Separately(rest, found);
      }
      forall j | 0 <= j < |rest| ensures Listed(rest[j]) * Listed(first) * found.Keys == {} {
        FirstApart(lists, found, j + 1);
        assert Listed(lists[j + 1]) * Listed(lists[0]) * found.Keys
            == Listed(lists[0]) * Listed(lists[j + 1]) * found.Keys;
      }
      SeparatelyRestrict(rest, found, Listed(first));
      hide Distribute, Separately;
      DistributeNeedsApart(rest, left);
      forall i, j | 0 <= i < j < |lists| ensures Listed(lists[i]) * Listed(lists[j]) * found.Keys == {} {
        if i == 0 {
          FirstApart(lists, found, j);
        } else {
          ApartPair(Listed(lists[i]), Listed(lists[j]), Listed(first), found.Keys, left.Keys);
        }
      }
    }
  }

  lemma ApartPair(a: set<Hash32>, b: set<Hash32>, first: set<Hash32>, known: set<Hash32>, left: set<Hash32>)
    requires left == known - first
    requires a * b * left == {} && a * first * known == {}
    ensures a * b * known == {}
  {
    forall h ensures h !in a * b * known {
      assert h !in a * b * left && h !in a * first * known;
    }
  }

  // ---------------------------------------------------------------- up to what ages

  function StableMap(found: TxMap): TxMap {
    map h | h in found :: found[h].Stable()
  }

  /** b holds, for the hashes of interest, what a holds, with what ages removed. */
  ghost predicate Ages(hashes: seq<Hash32>, a: TxMap, b: TxMap) {
    forall h :: h in hashes ==> (h in a <==> h in b) && (h in a ==> a[h].Stable() == b[h])
  }

  lemma StableOrder(hashes: seq<Hash32>, a: TxMap, b: TxMap)
    requires Ages(hashes, a, b)
    ensures StableAll(InRequestedOrder(hashes, a)) == InRequestedOrder(hashes, b)
  {
    KnownHashesRestrict(hashes, a.Keys, b.Keys);
    KnownHashesSpec(hashes, a.Keys);
    InRequestedOrderSpec(hashes, a);
    InRequestedOrderSpec(hashes, b);
    hide InRequestedOrder, KnownHashes;
  }

  lemma {:induction false} StableDistribute(lists: seq<seq<Hash32>>, a: TxMap, b: TxMap, i: nat)
    requires i < |lists|
    requires forall k :: 0 <= k < |lists| ==> Ages(lists[k], a, b)
    ensures |Distribute(lists, a)| == |Distribute(lists, b)| == |lists|
    ensures StableAll(Distribute(lists, a)[i]) == Distribute(lists, b)[i]
    decreases |lists|
  {
    StableOrder(lists[0], a, b);
    DistributeLength(lists, a);
    DistributeLength(lists, b);
    hide InRequestedOrder;
    if i > 0 {
      var a', b' := a - Listed(lists[0]), b - Listed(lists[0]);
      forall k | 0 <= k < |lists[1..]| ensures Ages(lists[1..][k], a', b') {
        assert Ages(lists[k + 1], a, b);
      }
      StableDistribute(lists[1..], a', b', i - 1);
    }
  }

  lemma {:induction false} DistributeLength(lists: seq<seq<Hash32>>, found: TxMap)
    ensures |Distribute(lists, found)| == |lists|
  {
    hide InRequestedOrder;
    if lists != [] {
      DistributeLength(lists[1..], found - Listed(lists[0]));
    }
  }

  lemma {:induction false} SeparatelyAt(lists: seq<seq<Hash32>>, found: TxMap, i: nat)
    requires i < |lists|
    ensures |Separately(lists, found)| == |lists|
    ensures Separately(lists, found)[i] == InRequestedOrder(lists[i], found)
    decreases |lists|
  {
    hide InRequestedOrder;
    if i > 0 {
      SeparatelyAt(lists[1..], found, i - 1);
    } else if |lists| > 1 {
      SeparatelyAt(lists[1..], found, 0);
    }
  }
}
