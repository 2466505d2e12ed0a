/**
 * Blocks and transactions over a daemon and caches shared with every other request, on a chain
 * that holds still for the call.
 *
 * Every answer is the daemon's own up to what ages inside a cached value: the depth of a block,
 * the confirmations of a transaction.
 */
module ChainSource {
  import opened Words
  import opened Numerals
  import opened Hex
  import opened BlockIds
  import opened Caching
  import opened CacheRuns
  import opened SharedCache
  import opened TxOrder
  import opened ChainNode

  /** Transaction hashes per call. */
  const MAX_TXS_PER_CALL := 500

  /** Headers per call. */
  const MAX_SPAN := 1000

  datatype Outcome<+T> = Ok(value: T) | Failed

  datatype Fetched = Fetched(txs: seq<TxEntry>, missed: seq<Text>)

  datatype BlockWithTxs = BlockWithTxs(header: Header, txs: seq<TxEntry>)

  /** How many calls n hashes take. */
  function Chunks(n: nat): nat {
    (n + MAX_TXS_PER_CALL - 1) / MAX_TXS_PER_CALL
  }

  lemma ChunksGrow(m: nat, n: nat)
    requires m <= n
    ensures Chunks(m) <= Chunks(n)
    ensures m % MAX_TXS_PER_CALL == 0 && m < n <= m + MAX_TXS_PER_CALL ==> Chunks(n) == Chunks(m) + 1
  {
  }

  lemma ChunksOfNone()
    ensures Chunks(0) == 0
  {
  }

  /** The requests for transactions that were added: 500 hashes or fewer each, all of them wanted. */
  ghost predicate AskedOnly(before: seq<seq<Hash32>>, after: seq<seq<Hash32>>, wanted: set<Hash32>) {
    && before <= after
    && forall i :: |before| <= i < |after| ==> 0 < |after[i]| <= 500 && forall h :: h in after[i] ==> h in wanted
  }

  // ---------------------------------------------------------------- what the caches hold

  /** Confirmed, and sixty times when it was fetched: its block was then 59 blocks below the tip. */
  predicate Settled(entry: TxEntry) {
    !entry.inPool && entry.confirmations >= REORG_WINDOW
  }

  /** An entry the daemon has, up to its age. */
  predicate TxFits(h: Hash32, entry: TxEntry, txs: TxMap) {
    h in txs && entry.Stable() == txs[h].Stable() && Settled(entry)
  }

  predicate HashFits(h: Hash32, block: Block, blocks: map<Hash32, Block>) {
    h in blocks && block.Stable() == blocks[h].Stable()
  }

  predicate HeightFits(h: U64, block: Block, chain: seq<Block>) {
    h < |chain| && block.Stable() == chain[h].Stable() && SafeToCacheByHeight(block.header.depth)
  }

  ghost predicate TxsConsistent(m: Store<Hash32, TxEntry>, came: set<(Hash32, TxEntry)>, txs: TxMap) {
    && (forall h :: h in m ==> TxFits(h, m[h].value, txs))
    && (forall p :: p in came ==> TxFits(p.0, p.1, txs))
  }

  ghost predicate HashesConsistent(m: Store<Hash32, Block>, came: set<(Hash32, Block)>, blocks: map<Hash32, Block>) {
    && (forall h :: h in m ==> HashFits(h, m[h].value, blocks))
    && (forall p :: p in came ==> HashFits(p.0, p.1, blocks))
  }

  ghost predicate HeightsConsistent(m: Store<U64, Block>, came: set<(U64, Block)>, chain: seq<Block>) {
    && (forall h :: h in m ==> HeightFits(h, m[h].value, chain))
    && (forall p :: p in came ==> HeightFits(p.0, p.1, chain))
  }

  // ---------------------------------------------------------------- where an answer comes from

  /** Word for word the daemon's entry, or one that was held, or one that another request brought in. */
  ghost predicate TxFrom(
    e: TxEntry, h: Hash32, held: Store<Hash32, TxEntry>, came: set<(Hash32, TxEntry)>, txs: TxMap)
  {
    (h in txs && e == txs[h]) || (h in held && e == held[h].value) || (h, e) in came
  }

  ghost predicate MapFrom(m: TxMap, held: Store<Hash32, TxEntry>, came: set<(Hash32, TxEntry)>, txs: TxMap) {
    forall h :: h in m ==> TxFrom(m[h], h, held, came, txs)
  }

  ghost predicate CacheFrom(
    now: Store<Hash32, TxEntry>, held: Store<Hash32, TxEntry>, came: set<(Hash32, TxEntry)>, txs: TxMap)
  {
    forall h :: h in now ==> TxFrom(now[h].value, h, held, came, txs)
  }

  ghost predicate AllFrom(
    entries: seq<TxEntry>, hashes: seq<Hash32>,
    held: Store<Hash32, TxEntry>, came: set<(Hash32, TxEntry)>, txs: TxMap)
  {
    forall e :: e in entries ==> exists h :: h in hashes && TxFrom(e, h, held, came, txs)
  }

  lemma NoneFrom(held: Store<Hash32, TxEntry>, came: set<(Hash32, TxEntry)>, txs: TxMap)
    ensures MapFrom(map[], held, came, txs) && CacheFrom(held, held, came, txs)
  {
  }

  /** An entry read out of the cache comes from where the cache's entries come from. */
  lemma MapFromCache(
      found: TxMap, h: Hash32, entry: TxEntry, now: Store<Hash32, TxEntry>,
      held: Store<Hash32, TxEntry>, came: set<(Hash32, TxEntry)>, txs: TxMap)
    requires MapFrom(found, held, came, txs) && CacheFrom(now, held, came, txs)
    requires h in now && entry == now[h].value
    ensures MapFrom(found[h := entry], held, came, txs)
  {
    hide TxFrom;
  }

  lemma MapFromDaemon(
      found: TxMap, h: Hash32, held: Store<Hash32, TxEntry>, came: set<(Hash32, TxEntry)>, txs: TxMap)
    requires MapFrom(found, held, came, txs) && h in txs
    ensures MapFrom(found[h := txs[h]], held, came, txs)
  {
  }

  /** What an operation leaves comes from where it came from before. */
  lemma CacheFromOnly(
      after: Store<Hash32, TxEntry>, before: Store<Hash32, TxEntry>,
      held: Store<Hash32, TxEntry>, came: set<(Hash32, TxEntry)>, txs: TxMap)
    requires OnlyFrom(after, before, came) && CacheFrom(before, held, came, txs)
    ensures CacheFrom(after, held, came, txs)
  {
  }

  lemma CacheFromStored(
      after: Store<Hash32, TxEntry>, before: Store<Hash32, TxEntry>, h: Hash32, entry: TxEntry,
      held: Store<Hash32, TxEntry>, came: set<(Hash32, TxEntry)>, txs: TxMap)
    requires OnlyFrom(after, before, came + {(h, entry)}) && CacheFrom(before, held, came, txs)
    requires h in txs && entry == txs[h]
    ensures CacheFrom(after, held, came, txs)
  {
  }

  /** With an empty start and nobody else there, the daemon is the only source. */
  lemma FreshOrder(
      hashes: seq<Hash32>, found: TxMap, held: Store<Hash32, TxEntry>, came: set<(Hash32, TxEntry)>, txs: TxMap)
    requires MapFrom(found, held, came, txs) && came == {}
    requires forall h :: h in hashes ==> h !in held
    requires forall h :: h in hashes ==> (h in found <==> h in txs)
    ensures InRequestedOrder(hashes, found) == InRequestedOrder(hashes, txs)
  {
    forall h | h in hashes && h in found ensures found[h] == txs[h] {
      assert TxFrom(found[h], h, held, came, txs);
    }
    SameOrder(hashes, found, txs);
  }

  lemma OrderFrom(
      hashes: seq<Hash32>, found: TxMap, held: Store<Hash32, TxEntry>, came: set<(Hash32, TxEntry)>, txs: TxMap)
    requires MapFrom(found, held, came, txs)
    ensures AllFrom(InRequestedOrder(hashes, found), hashes, held, came, txs)
  {
    InRequestedOrderSpec(hashes, found);
    KnownHashesSpec(hashes, found.Keys);
    var known := KnownHashes(hashes, found.Keys);
    hide KnownHashes, InRequestedOrder, TxFrom;
    forall e | e in Lookup(known, found) ensures exists h :: h in hashes && TxFrom(e, h, held, came, txs) {
      var i :| 0 <= i < |known| && Lookup(known, found)[i] == e;
      assert known[i] in known && TxFrom(e, known[i], held, came, txs);
    }
  }

  /** Other requests talk to the same daemon, so what they store is as true as what this one does. */
  class Source {
    const node: Node
    const blocksByHash: Shared<Hash32, Block>
    const blocksByHeight: Shared<U64, Block>
    const txs: Shared<Hash32, TxEntry>

    ghost predicate TxsValid()
      reads txs.cache
    {
      txs.Valid() && TxsConsistent(txs.cache.entries, txs.Brought(), node.txs)
    }

    ghost predicate BlocksValid()
      reads blocksByHash.cache, blocksByHeight.cache
    {
      && blocksByHash.Valid() && blocksByHeight.Valid()
      && HashesConsistent(blocksByHash.cache.entries, blocksByHash.Brought(), node.blocks)
      && HeightsConsistent(blocksByHeight.cache.entries, blocksByHeight.Brought(), node.chain)
    }

    constructor (node: Node, hashTraffic: seq<seq<Op<Hash32, Block>>>, heightTraffic: seq<seq<Op<U64, Block>>>,
                 txTraffic: seq<seq<Op<Hash32, TxEntry>>>)
      requires node.Trusted() && TxsConsistent(map[], Stored(txTraffic), node.txs)
      requires HashesConsistent(map[], Stored(hashTraffic), node.blocks)
      requires HeightsConsistent(map[], Stored(heightTraffic), node.chain)
      ensures TxsValid() && BlocksValid() && this.node == node
      ensures blocksByHash.traffic == hashTraffic && blocksByHeight.traffic == heightTraffic && txs.traffic == txTraffic
      ensures blocksByHash.cache.limits.capacity == 512 && blocksByHash.cache.entries == map[]
      ensures blocksByHeight.cache.limits.capacity == 2048 && blocksByHeight.cache.entries == map[]
      ensures txs.cache.limits.capacity == 8192 && txs.cache.entries == map[]
    {
      blocksByHash := new Shared<Hash32, Block>(512, hashTraffic);
      blocksByHeight := new Shared<U64, Block>(2048, heightTraffic);
      txs := new Shared<Hash32, TxEntry>(8192, txTraffic);
      this.node := node;
    }

    // -------------------------------------------------------------- transactions

    method CachedTx(h: Hash32) returns (r: Option<TxEntry>)
      requires TxsValid()
      modifies txs, txs.cache
      ensures TxsValid()
      ensures r.Some? ==> h in node.txs && r.value.Stable() == node.txs[h].Stable()
      ensures txs.Quiet() ==> (r.Some? <==> h in old(txs.cache.entries))
      ensures txs.Quiet() ==> txs.cache.entries.Keys == old(txs.cache.entries).Keys
      ensures OnlyFrom(txs.cache.entries, old(txs.cache.entries), txs.Brought())
      ensures r.Some? ==> h in txs.cache.entries && r.value == txs.cache.entries[h].value
    {
      hide Sound;
      r := txs.Lookup(h);
    }

    method KeepTx(h: Hash32, entry: TxEntry)
      requires TxsValid() && TxFits(h, entry, node.txs)
      modifies txs, txs.cache
      ensures TxsValid()
      ensures OnlyFrom(txs.cache.entries, old(txs.cache.entries), txs.Brought() + {(h, entry)})
      ensures txs.Quiet() && |old(txs.cache.entries)| < txs.cache.limits.capacity ==>
                && txs.cache.entries.Keys == old(txs.cache.entries).Keys + {h}
                && |txs.cache.entries| <= |old(txs.cache.entries)| + 1
    {
      hide Sound, TxFits;
      txs.Store(h, entry);
    }

    /** What is cached of a request, and what is left to ask for. */
    method FromCache(hashes: seq<Hash32>) returns (found: TxMap, want: seq<Hash32>)
      requires TxsValid()
      modifies txs, txs.cache
      ensures TxsValid()
      ensures Partial(found, node.txs)
      ensures forall h :: h in found ==> h in hashes
      ensures forall h :: h in hashes ==> h in found || h in want
      ensures forall h :: h in want ==> h in hashes
      ensures txs.Quiet() ==> forall h :: h in want ==> h !in old(txs.cache.entries)
      ensures txs.Quiet() ==> forall h :: h in found ==> h in old(txs.cache.entries)
      ensures |want| <= |hashes|
      ensures MapFrom(found, old(txs.cache.entries), txs.Brought(), node.txs)
      ensures CacheFrom(txs.cache.entries, old(txs.cache.entries), txs.Brought(), node.txs)
      ensures txs.Quiet() ==> txs.cache.entries.Keys == old(txs.cache.entries).Keys
      ensures Unknown(want, node.txs) == Unknown(hashes, node.txs)
    {
      hide TxsConsistent, Unknown, Sound, TxFrom, MapFrom, CacheFrom, OnlyFrom;
      found, want := map[], [];
      ghost var held, came := txs.cache.entries, txs.Brought();
      NoneFrom(held, came, node.txs);
      for i := 0 to |hashes|
        invariant TxsValid()
        invariant Partial(found, node.txs)
        invariant forall h :: h in found ==> h in hashes
        invariant forall h :: h in hashes[..i] ==> h in found || h in want
        invariant |want| <= i
        invariant MapFrom(found, held, came, node.txs) && CacheFrom(txs.cache.entries, held, came, node.txs)
        invariant forall h :: h in want ==> h in hashes
        invariant txs.Quiet() ==> txs.cache.entries.Keys == old(txs.cache.entries).Keys
        invariant txs.Quiet() ==> forall h :: h in want ==> h !in old(txs.cache.entries)
        invariant txs.Quiet() ==> forall h :: h in found ==> h in old(txs.cache.entries)
        invariant Unknown(want, node.txs) == Unknown(hashes[..i], node.txs)
      {
        var h := hashes[i];
        assert hashes[..i + 1] == hashes[..i] + [h];
        UnknownGrows(hashes[..i], h, node.txs);
        UnknownGrows(want, h, node.txs);
        ghost var before := txs.cache.entries;
        var hit := CachedTx(h);
        CacheFromOnly(txs.cache.entries, before, held, came, node.txs);
        match hit {
          case Some(entry) =>
            MapFromCache(found, h, entry, txs.cache.entries, held, came, node.txs);
            found := found[h := entry];
          case None =>
            want := want + [h];
        }
      }
      assert hashes[..|hashes|] == hashes;
    }

    /** Take in one response, keeping what has enough confirmations. */
    method Absorb(entries: seq<TxEntry>, hashes: seq<Hash32>, found: TxMap, ghost held: Store<Hash32, TxEntry>)
      returns (grown: TxMap)
      requires TxsValid() && node.Trusted()
      requires MapFrom(found, held, txs.Brought(), node.txs)
      requires CacheFrom(txs.cache.entries, held, txs.Brought(), node.txs)
      requires entries == Entries(hashes, node.txs) && Partial(found, node.txs)
      modifies txs, txs.cache
      ensures TxsValid()
      ensures Partial(grown, node.txs)
      ensures forall h :: h in grown <==> h in found || (h in hashes && h in node.txs)
      ensures MapFrom(grown, held, txs.Brought(), node.txs)
      ensures CacheFrom(txs.cache.entries, held, txs.Brought(), node.txs)
      ensures txs.Quiet() && |old(txs.cache.entries)| + |hashes| <= txs.cache.limits.capacity ==>
                Kept(txs.cache.entries, old(txs.cache.entries), hashes, node.txs)
    {
      hide TxsConsistent, Entries, Unknown, Sound, TxFrom, MapFrom, CacheFrom, OnlyFrom, KeptSome, Kept, HashFromText;
      ghost var came := txs.Brought();
      ghost var first := txs.cache.entries;
      ghost var roomy := txs.Quiet() && |first| + |hashes| <= txs.cache.limits.capacity;
      EntriesFewer(hashes, node.txs);
      NothingKept(first, node.txs);
      TrustedNames(node.chain, node.blocks, node.txs);
      EntriesAre(hashes, node.txs);
      ghost var all := node.txs;
      EntriesNamed(hashes, entries, all);
      hide Honest;
      grown := found;
      for i := 0 to |entries|
        invariant TxsValid()
        invariant Partial(grown, all)
        invariant forall h :: h in grown <==> h in found || (h in all && all[h] in entries[..i])
        invariant MapFrom(grown, held, came, all) && CacheFrom(txs.cache.entries, held, came, all)
        invariant roomy ==> KeptSome(txs.cache.entries, first, entries[..i], all)
        invariant roomy ==> |txs.cache.entries| <= |first| + i
      {
        var entry := entries[i];
        assert entries[..i + 1] == entries[..i] + [entry];
        assert entry in entries;
        match HashFromText(entry.txHash) {
          case Hash(h) =>
            ghost var before := txs.cache.entries;
            if Settled(entry) {
              KeepTx(h, entry);
              CacheFromStored(txs.cache.entries, before, h, entry, held, came, all);
            }
            if roomy {
              KeptOneMore(txs.cache.entries, before, first, entries[..i], h, all);
            }
            MapFromDaemon(grown, h, held, came, all);
            grown := grown[h := entry];
          case _ =>
        }
      }
      assert entries[..|entries|] == entries;
      if roomy {
        KeptAll(txs.cache.entries, first, hashes, all);
      }
    }

    /** The calls for what is not cached, a chunk at a time. */
    method FetchAll(want: seq<Hash32>, found: TxMap, ghost held: Store<Hash32, TxEntry>)
      returns (r: Outcome<(TxMap, seq<Text>)>)
      requires TxsValid() && node.Trusted() && Partial(found, node.txs)
      requires MapFrom(found, held, txs.Brought(), node.txs)
      requires CacheFrom(txs.cache.entries, held, txs.Brought(), node.txs)
      modifies txs, txs.cache, node
      ensures TxsValid()
      ensures node.faults == {} || want == [] ==> r.Ok?
      ensures old(node.calls) <= node.calls <= old(node.calls) + Chunks(|want|)
      ensures r.Ok? ==>
                && Partial(r.value.0, node.txs)
                && (forall h :: h in r.value.0 <==> h in found || (h in want && h in node.txs))
                && r.value.1 == Texts(Unknown(want, node.txs))
                && MapFrom(r.value.0, held, txs.Brought(), node.txs)
      ensures CacheFrom(txs.cache.entries, held, txs.Brought(), node.txs)
      ensures AskedOnly(old(node.asked), node.asked, set h | h in want)
      ensures r.Ok? && txs.Quiet() && |old(txs.cache.entries)| + |want| <= txs.cache.limits.capacity ==>
                Kept(txs.cache.entries, old(txs.cache.entries), want, node.txs)
    {
      hide TxsConsistent, Entries, Unknown, Honest, Texts, Chunks, Sound, MapFrom, CacheFrom, Kept;
      ghost var first := txs.cache.entries;
      ghost var roomy := txs.Quiet() && |first| + |want| <= txs.cache.limits.capacity;
      NothingKept(first, node.txs);
      assert Chunks(0) == 0 by { ChunksOfNone(); }
      var grown, missed, at := found, [], 0;
      assert Texts(Unknown(want[..0], node.txs)) == [] by { NothingUnknown(node.txs); }
      while at < |want|
        invariant TxsValid() && Partial(grown, node.txs) && 0 <= at <= |want|
        invariant at % MAX_TXS_PER_CALL == 0 || at == |want|
        invariant old(node.calls) <= node.calls <= old(node.calls) + Chunks(at)
        invariant forall h :: h in grown <==> h in found || (h in want[..at] && h in node.txs)
        invariant missed == Texts(Unknown(want[..at], node.txs))
        invariant MapFrom(grown, held, txs.Brought(), node.txs)
        invariant CacheFrom(txs.cache.entries, held, txs.Brought(), node.txs)
        invariant AskedOnly(old(node.asked), node.asked, set h | h in want)
        invariant roomy ==> Kept(txs.cache.entries, first, want[..at], node.txs)
      {
        ghost var between := txs.cache.entries;
        var end := Min(at + MAX_TXS_PER_CALL, |want|);
        var chunk := want[at..end];
        ChunksGrow(at, end);
        ChunksGrow(end, |want|);
        assert want[..end] == want[..at] + chunk;
        ParseTexts(chunk);
        var response := node.GetTransactions(Texts(chunk));
        if response.None? {
          return Failed;
        }
        if roomy {
          KeptSize(between, first, want[..at], node.txs);
        }
        grown := Absorb(response.value.0, chunk, grown, held);
        if roomy {
          KeptJoins(txs.cache.entries, between, first, want[..at], chunk, node.txs);
        }
        UnknownAppends(want[..at], chunk, node.txs);
        TextsAppend(Unknown(want[..at], node.txs), Unknown(chunk, node.txs));
        missed := missed + response.value.1;
        at := end;
      }
      assert want[..|want|] == want;
      r := Ok((grown, missed));
    }

    /**
     * The known ones among the requested hashes, once each, in the order they were first asked for;
     * and the text of every unknown one.  What the cache held, and what others do to it meanwhile,
     * makes no difference to that; only to how often the daemon is asked.
     */
    method Transactions(hashes: seq<Hash32>) returns (r: Outcome<Fetched>)
      requires TxsValid() && node.Trusted()
      modifies txs, txs.cache, node
      ensures TxsValid()
      ensures node.faults == {} ==> r.Ok?
      ensures node.calls <= old(node.calls) + Chunks(|hashes|)
      ensures txs.Quiet() && (forall h :: h in hashes ==> h in old(txs.cache.entries)) ==>
                r.Ok? && node.calls == old(node.calls)
      ensures r.Ok? ==> StableAll(r.value.txs) == StableAll(InRequestedOrder(hashes, node.txs))
      ensures r.Ok? ==> r.value.missed == Texts(Unknown(hashes, node.txs))
      ensures r.Ok? ==> FromNode(r.value.txs, hashes, node.txs)
      ensures r.Ok? ==> AllFrom(r.value.txs, hashes, old(txs.cache.entries), txs.Brought(), node.txs)
      ensures r.Ok? && txs.Quiet() && (forall h :: h in hashes ==> h !in old(txs.cache.entries)) ==>
                r.value.txs == InRequestedOrder(hashes, node.txs)
      ensures CacheFrom(txs.cache.entries, old(txs.cache.entries), txs.Brought(), node.txs)
      ensures r.Ok? && txs.Quiet() && |old(txs.cache.entries)| + |hashes| <= txs.cache.limits.capacity ==>
                forall h :: h in txs.cache.entries <==>
                  h in old(txs.cache.entries) || (h in hashes && h in node.txs && IsKept(node.txs[h]))
      ensures AskedOnly(old(node.asked), node.asked, set h | h in hashes)
      ensures txs.Quiet() ==>
                AskedOnly(old(node.asked), node.asked, set h | h in hashes && h !in old(txs.cache.entries))
    {
      hide TxsConsistent, Honest, Sound, Unknown, Texts, Chunks, InRequestedOrder, StableAll, FromNode, TxFrom, MapFrom,
        CacheFrom, AllFrom, IsKept, Kept;
      ghost var held := txs.cache.entries;
      if hashes == [] {
        NothingAsked(node.txs);
        NoneFrom(held, txs.Brought(), node.txs);
        OrderFrom([], map[], held, txs.Brought(), node.txs);
        return Ok(Fetched([], []));
      }
      var found, want := FromCache(hashes);
      if want != [] {
        assert want[0] in want;
      } else {
        assert Chunks(|want|) == 0 by { ChunksOfNone(); }
      }
      ChunksGrow(|want|, |hashes|);
      ghost var between := txs.cache.entries;
      var fetched := FetchAll(want, found, held);
      if fetched.Failed? {
        return Failed;
      }
      if txs.Quiet() && |held| + |hashes| <= txs.cache.limits.capacity {
        SameSize(between, held);
        KeptOfWanted(txs.cache.entries, between, held, want, hashes, node.txs);
      }
      var (all, missed) := fetched.value;
      InRequestedOrderRestrict(hashes, all, node.txs);
      OrderFromNode(hashes, all, node.txs);
      OrderFrom(hashes, all, held, txs.Brought(), node.txs);
      if txs.Quiet() && forall h :: h in hashes ==> h !in held {
        txs.QuietBringsNothing();
        FreshOrder(hashes, all, held, txs.Brought(), node.txs);
      }
      r := Ok(Fetched(InRequestedOrder(hashes, all), missed));
    }

    // -------------------------------------------------------------- blocks

    method KeepByHash(h: Hash32, block: Block)
      requires BlocksValid() && HashFits(h, block, node.blocks)
      modifies blocksByHash, blocksByHash.cache
      ensures BlocksValid() && h in blocksByHash.cache.entries && blocksByHash.cache.entries[h].value == block
    {
      hide HeightsConsistent, Sound, HashFits;
      blocksByHash.Store(h, block);
    }

    method KeepByHeight(h: U64, block: Block)
      requires BlocksValid() && HeightFits(h, block, node.chain)
      modifies blocksByHeight, blocksByHeight.cache
      ensures BlocksValid() && h in blocksByHeight.cache.entries && blocksByHeight.cache.entries[h].value == block
    {
      hide HashesConsistent, Sound, HeightFits;
      blocksByHeight.Store(h, block);
    }

    ghost predicate Holds(id: BlockId)
      reads blocksByHash.cache, blocksByHeight.cache
    {
      match id
      case ByHash(h) => h in blocksByHash.cache.entries
      case Height(h) => h in blocksByHeight.cache.entries
    }

    /** The block is held under that name, or brought in under it by another request. */
    ghost predicate Supplies(id: BlockId, block: Block)
      reads blocksByHash.cache, blocksByHeight.cache
    {
      match id
      case ByHash(h) =>
        || (h in blocksByHash.cache.entries && blocksByHash.cache.entries[h].value == block)
        || (h, block) in blocksByHash.Brought()
      case Height(h) =>
        || (h in blocksByHeight.cache.entries && blocksByHeight.cache.entries[h].value == block)
        || (h, block) in blocksByHeight.Brought()
    }

    ghost predicate SuppliesHeader(height: U64, header: Header)
      reads blocksByHash.cache, blocksByHeight.cache
    {
      exists block :: Supplies(Height(height), block) && block.header == header
    }

    /** The block is in the cache under its own hash, if it has one. */
    ghost predicate KeptByHash(block: Block)
      reads blocksByHash.cache
    {
      var hash := HashFromText(block.header.hash);
      hash.Hash? ==>
        hash.hash in blocksByHash.cache.entries && blocksByHash.cache.entries[hash.hash].value == block
    }

    /** And under its height, if it is buried. */
    ghost predicate KeptByHeight(block: Block)
      reads blocksByHeight.cache
    {
      SafeToCacheByHeight(block.header.depth) ==>
        var height := block.header.height;
        height in blocksByHeight.cache.entries && blocksByHeight.cache.entries[height].value == block
    }

    ghost predicate Quiet() {
      blocksByHash.Quiet() && blocksByHeight.Quiet()
    }

    method Cached(id: BlockId) returns (r: Option<Block>)
      requires BlocksValid()
      modifies blocksByHash, blocksByHash.cache, blocksByHeight, blocksByHeight.cache
      ensures BlocksValid()
      ensures r.Some? ==> Names(id, r.value, node)
      ensures r.Some? <==> Holds(id)
      ensures Quiet() ==> Holds(id) == old(Holds(id))
      ensures r.Some? ==> old(Supplies(id, r.value))
    {
      hide Sound;
      match id {
        case ByHash(h) =>
          hide HeightsConsistent;
          r := blocksByHash.Lookup(h);
        case Height(h) =>
          hide HashesConsistent;
          r := blocksByHeight.Lookup(h);
      }
    }

    /**
     * The block the daemon has under that name, up to its depth.  A fresh answer is kept under its
     * hash, and under its height if it is buried past the window; what is kept is not asked for again.
     */
    method GetBlock(id: BlockId) returns (r: Outcome<Block>)
      requires BlocksValid() && node.Trusted()
      modifies blocksByHash, blocksByHash.cache, blocksByHeight, blocksByHeight.cache, node
      ensures BlocksValid()
      ensures r.Ok? ==> Names(id, r.value, node)
      ensures node.faults == {} && Exists(id, node) ==> r.Ok?
      ensures old(node.calls) <= node.calls <= old(node.calls) + 1
      ensures Quiet() ==> (node.calls == old(node.calls) <==> old(Holds(id)))
      ensures node.calls == old(node.calls) ==> r.Ok?
      ensures r.Ok? && (id.Height? ==> SafeToCacheByHeight(r.value.header.depth)) ==> Holds(id)
      ensures r.Ok? && node.calls > old(node.calls) ==> KeptByHash(r.value) && KeptByHeight(r.value)
      ensures r.Ok? && node.calls > old(node.calls) ==> Exactly(id, r.value, node)
      ensures r.Ok? && node.calls == old(node.calls) ==> old(Supplies(id, r.value))
      ensures node.asked == old(node.asked)
    {
      hide HashesConsistent, HeightsConsistent;
      var hit := Cached(id);
      if hit.Some? {
        return Ok(hit.value);
      }
      var response: Option<Block>;
      match id {
        case Height(h) => response := node.GetBlockByHeight(h);
        case ByHash(h) => response := node.GetBlockByHash(h);
      }
      if response.None? {
        return Failed;
      }
      var fresh' := response.value;
      FreshBlock(id, fresh', node.chain, node.blocks, node.txs);
      hide Honest;
      match HashFromText(fresh'.header.hash) {
        case Hash(h) => KeepByHash(h, fresh');
        case _ =>
      }
      if SafeToCacheByHeight(fresh'.header.depth) {
        KeepByHeight(fresh'.header.height, fresh');
      }
      r := Ok(fresh');
    }

    // -------------------------------------------------------------- ranges

    /** The span is cut to what one call may ask for. */
    method HeadersRange(start: U64, end: U64) returns (r: Outcome<seq<Header>>)
      modifies node
      ensures node.calls == old(node.calls) + 1 && node.asked == old(node.asked)
      ensures r.Ok? ==> start <= LastOf(start, end) < |node.chain|
      ensures r.Ok? ==> r.value == Headers(node.chain[start..LastOf(start, end) + 1])
      ensures node.faults == {} && start <= LastOf(start, end) < |node.chain| ==> r.Ok?
      ensures r.Ok? ==> Spans(r.value, start, end, node.chain)
      ensures node.faults == {} && start <= end < |node.chain| ==> r.Ok?
    {
      LastOfIs(start, end);
      var response := node.GetHeadersRange(start, LastOf(start, end));
      match response {
        case None => r := Failed;
        case Some(headers) => r := Ok(headers);
      }
    }

    /** A block's transaction hashes from its header, and from its body only if it holds anything. */
    method HashesOf(header: Header, ghost height: nat) returns (r: Outcome<seq<Hash32>>)
      requires BlocksValid() && node.Trusted()
      requires height < |node.chain| && header == node.chain[height].header
      modifies blocksByHash, blocksByHash.cache, blocksByHeight, blocksByHeight.cache, node
      ensures BlocksValid()
      ensures node.faults == {} ==> r.Ok?
      ensures node.calls <= old(node.calls) + HoldingOne(header)
      ensures r.Ok? ==> r.value == BlockHashes(node.chain[height])
    {
      hide HashesConsistent, HeightsConsistent, ParseAll;
      ghost var block := node.chain[height];
      assert HeaderAgrees(block, height);
      var hashes := ParseAll([header.minerTxHash]);
      if header.numTxes > 0 {
        var body := GetBlock(Height(header.height));
        hide Honest;
        if body.Failed? {
          return Failed;
        }
        assert body.value.txHashes == block.txHashes;
        hashes := hashes + ParseAll(body.value.txHashes);
      } else {
        NoTransactions(block);
      }
      r := Ok(hashes);
    }

    /** The hashes every block of the range lists. */
    method Wanted(headers: seq<Header>, ghost start: U64) returns (r: Outcome<seq<seq<Hash32>>>)
      requires BlocksValid() && node.Trusted()
      requires start + |headers| <= |node.chain| && headers == Headers(node.chain[start..start + |headers|])
      modifies blocksByHash, blocksByHash.cache, blocksByHeight, blocksByHeight.cache, node
      ensures BlocksValid()
      ensures node.faults == {} ==> r.Ok?
      ensures node.calls <= old(node.calls) + Holding(headers)
      ensures r.Ok? ==> r.value == Lists(node.chain[start..start + |headers|])
    {
      hide HashesConsistent, HeightsConsistent, Honest, BlockHashes, Lists, ListsOf, Headers, Holding, HoldingOne,
        Sound;
      var wanted: seq<seq<Hash32>> := [];
      ListsStart(node.chain, start);
      for i := 0 to |headers|
        invariant BlocksValid()
        invariant ListsOf(wanted, node.chain, start, start + i)
        invariant node.calls <= old(node.calls) + Holding(headers[..i])
      {
        HoldingGrows(headers, i);
        HeaderAt(headers, node.chain, start, i);
        var hashes := HashesOf(headers[i], start + i);
        if hashes.Failed? {
          return Failed;
        }
        ListsGrow(wanted, node.chain, start, start + i);
        wanted := wanted + [hashes.value];
      }
      ListsEnd(wanted, node.chain, start, start + |headers|);
      assert headers[..|headers|] == headers;
      r := Ok(wanted);
    }

    /**
     * The fan-out: one call for the headers, at most one for each block that holds anything, and one
     * batch, 500 to a call, for every transaction of the range.
     */
    method BlocksInRange(start: U64, end: U64) returns (r: Outcome<seq<BlockWithTxs>>)
      requires BlocksValid() && TxsValid() && node.Trusted()
      modifies blocksByHash, blocksByHash.cache, blocksByHeight, blocksByHeight.cache, txs, txs.cache, node
      ensures BlocksValid() && TxsValid()
      ensures r.Ok? ==> start <= LastOf(start, end) < |node.chain|
      ensures r.Ok? ==> Views(r.value) == FanOut(node.chain[start..LastOf(start, end) + 1], StableMap(node.txs))
      ensures node.faults == {} && start <= LastOf(start, end) < |node.chain| ==> r.Ok?
      ensures r.Ok? ==> node.calls <= old(node.calls) + RangeCalls(node.chain[start..LastOf(start, end) + 1])
      ensures node.faults == {} && start <= end < |node.chain| ==> r.Ok?
      ensures r.Ok? ==> Covers(r.value, start, end, node.chain)
      ensures r.Ok? ==> EachFrom(r.value, start, node.chain, old(txs.cache.entries), txs.Brought(), node.txs)
    {
      hide Honest, HashesConsistent, HeightsConsistent, TxsConsistent, Lists, Distribute, ByHashMap, FlatHashes, FanOut,
        StableMap, Sound, Covers, EachFrom, Gathered, Views, Zip, Headers, RangeCalls, LastOf;
      ghost var held, came := txs.cache.entries, txs.Brought();
      LastOfIs(start, end);
      var gathered := Gather(start, end);
      if gathered.Failed? {
        return Failed;
      }
      var (headers, wanted, entries) := gathered.value;
      RangeAssembled(
        headers, wanted, entries, start, end, node.chain, node.blocks, node.txs, held, came);
      r := Ok(Zip(headers, Distribute(wanted, ByHashMap(entries))));
    }

    /** The calls of a range: its headers, the lists of its blocks, and all that those list. */
    method Gather(start: U64, end: U64) returns (r: Outcome<(seq<Header>, seq<seq<Hash32>>, seq<TxEntry>)>)
      requires BlocksValid() && TxsValid() && node.Trusted()
      modifies blocksByHash, blocksByHash.cache, blocksByHeight, blocksByHeight.cache, txs, txs.cache, node
      ensures BlocksValid() && TxsValid()
      ensures node.faults == {} && start <= LastOf(start, end) < |node.chain| ==> r.Ok?
      ensures r.Ok? ==> start <= LastOf(start, end) < |node.chain|
      ensures r.Ok? ==> node.calls <= old(node.calls) + RangeCalls(node.chain[start..LastOf(start, end) + 1])
      ensures r.Ok? ==> Gathered(r.value.0, r.value.1, r.value.2, start, end, node.chain, node.txs,
                                 old(txs.cache.entries), txs.Brought())
    {
      ghost var held, came := txs.cache.entries, txs.Brought();
      TrustedNames(node.chain, node.blocks, node.txs);
      NamesHoldAlready(held, came, node.txs);
      hide Honest, HashesConsistent, HeightsConsistent, TxsConsistent, FlatHashes, InRequestedOrder, StableAll, Sound,
        FromNode, Unknown, Texts, TxFrom, AllFrom, CacheFrom, AskedOnly, LastOf, NamesHold, Listing, Chunks, RangeCalls;
      var listing := GatherLists(start, end);
      if listing.Failed? {
        return Failed;
      }
      var (headers, wanted) := listing.value;
      ListingCalls(headers, wanted, start, end, node.chain);
      var fetched := Transactions(FlatHashes(wanted));
      if fetched.Failed? {
        return Failed;
      }
      r := Ok((headers, wanted, fetched.value.txs));
    }

    /** The headers of a range, and what each of its blocks lists. */
    method GatherLists(start: U64, end: U64) returns (r: Outcome<(seq<Header>, seq<seq<Hash32>>)>)
      requires BlocksValid() && node.Trusted()
      modifies blocksByHash, blocksByHash.cache, blocksByHeight, blocksByHeight.cache, node
      ensures BlocksValid()
      ensures node.faults == {} && start <= LastOf(start, end) < |node.chain| ==> r.Ok?
      ensures r.Ok? ==> node.calls <= old(node.calls) + 1 + Holding(r.value.0)
      ensures r.Ok? ==> Listing(r.value.0, r.value.1, start, end, node.chain)
    {
      hide Honest, HashesConsistent, HeightsConsistent, Lists, Sound, LastOf, Headers, Holding, Spans;
      var headers := HeadersRange(start, end);
      if headers.Failed? {
        return Failed;
      }
      var wanted := Wanted(headers.value, start);
      if wanted.Failed? {
        return Failed;
      }
      r := Ok((headers.value, wanted.value));
    }

    /** One block, then its transactions. */
    method OneBlock(height: U64) returns (r: Outcome<BlockWithTxs>)
      requires BlocksValid() && TxsValid() && node.Trusted()
      requires height < |node.chain|
      modifies blocksByHash, blocksByHash.cache, blocksByHeight, blocksByHeight.cache, txs, txs.cache, node
      ensures BlocksValid() && TxsValid()
      ensures r.Ok? ==> View(r.value) == Alone(node.chain[height], StableMap(node.txs))
      ensures node.faults == {} ==> r.Ok?
      ensures r.Ok? ==> r.value.header == node.chain[height].header || old(SuppliesHeader(height, r.value.header))
      ensures r.Ok? ==> AllFrom(r.value.txs, BlockHashes(node.chain[height]),
                                old(txs.cache.entries), txs.Brought(), node.txs)
    {
      hide Honest, HashesConsistent, HeightsConsistent, TxsConsistent, InRequestedOrder, Alone, BlockHashes, View,
        StableMap, AllFrom, CacheFrom, AskedOnly, Supplies, Sound;
      var got := GetBlock(Height(height));
      if got.Failed? {
        return Failed;
      }
      var fetched := Transactions(BlockHashes(got.value));
      if fetched.Failed? {
        return Failed;
      }
      AloneView(got.value, node.chain[height], fetched.value.txs, node.txs);
      SameList(got.value, node.chain[height]);
      r := Ok(BlockWithTxs(got.value.header, fetched.value.txs));
    }

    /** The slow form: one block after another. */
    method OneByOne(start: U64, end: U64) returns (r: Outcome<seq<BlockWithTxs>>)
      requires BlocksValid() && TxsValid() && node.Trusted()
      requires start <= end < |node.chain|
      modifies blocksByHash, blocksByHash.cache, blocksByHeight, blocksByHeight.cache, txs, txs.cache, node
      ensures BlocksValid() && TxsValid()
      ensures r.Ok? ==> Views(r.value) == EachAlone(node.chain[start..end + 1], StableMap(node.txs))
      ensures node.faults == {} ==> r.Ok?
    {
      hide Honest, HashesConsistent, HeightsConsistent, TxsConsistent, Alone, View, EachShown, StableMap, StableAll,
        Sound;
      var blocks: seq<BlockWithTxs> := [];
      var height: nat := start;
      EachShownStart(node.chain, start, StableMap(node.txs));
      while height <= end
        invariant BlocksValid() && TxsValid() && start <= height <= end + 1
        invariant EachShown(blocks, node.chain, start, height, StableMap(node.txs))
      {
        var one := OneBlock(height);
        if one.Failed? {
          return Failed;
        }
        EachShownGrows(blocks, one.value, node.chain, start, height, StableMap(node.txs));
        blocks := blocks + [one.value];
        height := height + 1;
      }
      EachShownEnd(blocks, node.chain, start, height, StableMap(node.txs));
      r := Ok(blocks);
    }
  }

  /**
   * Both forms run on the same range: whatever the caches held before or in between, they say the
   * same, as long as no known transaction is listed by two of the blocks.
   */
  method BothWays(source: Source, start: U64, end: U64)
    returns (fast: Outcome<seq<BlockWithTxs>>, slow: Outcome<seq<BlockWithTxs>>)
    requires source.BlocksValid() && source.TxsValid() && source.node.Trusted()
    requires start <= LastOf(start, end) < |source.node.chain|
    modifies source.blocksByHash, source.blocksByHash.cache, source.blocksByHeight, source.blocksByHeight.cache
    modifies source.txs, source.txs.cache, source.node
    ensures source.node.faults == {} ==> fast.Ok? && slow.Ok?
    ensures fast.Ok? && slow.Ok?
            && Apart(Lists(source.node.chain[start..LastOf(start, end) + 1]), source.node.txs.Keys) ==>
              Views(fast.value) == Views(slow.value)
  {
    hide HashesConsistent, HeightsConsistent, TxsConsistent, Honest, FanOut, EachAlone, Views, Lists, Apart, StableMap;
    fast := source.BlocksInRange(start, end);
    slow := source.OneByOne(start, LastOf(start, end));
    RangeAgrees(source.node.chain[start..LastOf(start, end) + 1], StableMap(source.node.txs));
    StableKeys(source.node.txs);
  }

  lemma StableKeys(txs: TxMap)
    ensures StableMap(txs).Keys == txs.Keys
  {
  }

  // ---------------------------------------------------------------- blocks by name

  /** The block is the one the node has under this name, up to its depth. */
  ghost predicate Names(id: BlockId, block: Block, node: Node) {
    match id
    case Height(h) => h < |node.chain| && block.Stable() == node.chain[h].Stable()
    case ByHash(h) => h in node.blocks && block.Stable() == node.blocks[h].Stable()
  }

  /** Word for word, depth and all. */
  ghost predicate Exactly(id: BlockId, block: Block, node: Node) {
    match id
    case Height(h) => h < |node.chain| && block == node.chain[h]
    case ByHash(h) => h in node.blocks && block == node.blocks[h]
  }

  ghost predicate Exists(id: BlockId, node: Node) {
    match id
    case Height(h) => h < |node.chain|
    case ByHash(h) => h in node.blocks
  }

  /** A fresh answer may be kept under its own hash, and once buried under its own height. */
  lemma FreshBlock(id: BlockId, block: Block, chain: seq<Block>, blocks: map<Hash32, Block>, txs: TxMap)
    requires Honest(chain, blocks, txs)
    requires id.Height? ==> id.height < |chain| && block == chain[id.height]
    requires id.ByHash? ==> id.hash in blocks && block == blocks[id.hash]
    ensures HashFromText(block.header.hash).Hash? ==>
              var h := HashFromText(block.header.hash).hash;
              h in blocks && block.Stable() == blocks[h].Stable()
    ensures SafeToCacheByHeight(block.header.depth) ==>
              block.header.height < |chain| && block.Stable() == chain[block.header.height].Stable()
  {
    hide HashFromText;
    if id.Height? {
      assert HeaderAgrees(chain[id.height], id.height);
    }
  }

  // ---------------------------------------------------------------- ranges

  /** `end.min(start.saturating_add(MAX_SPAN - 1))`. */
  function LastOf(start: U64, end: U64): U64 {
    Min(end, SaturatingAdd(start, MAX_SPAN - 1))
  }

  lemma LastOfIs(start: U64, end: U64)
    ensures start <= end ==> LastOf(start, end) == if end - start <= 999 then end else start + 999
    ensures start > end ==> LastOf(start, end) == end
  {
  }

  /**
   * The headers are the chain's own, in order, from `start` on: as many as the range has, and a
   * thousand at most.
   */
  ghost predicate Spans(headers: seq<Header>, start: U64, end: U64, chain: seq<Block>) {
    && start <= end
    && |headers| == (if end - start <= 999 then end - start else 999) + 1
    && start + |headers| <= |chain|
    && forall i :: 0 <= i < |headers| ==> headers[i] == chain[start + i].header
  }

  /**
   * The answer to a range: a block for every height from `start` on, as many as the range has and a
   * thousand at most, each with the chain's own header.
   */
  ghost predicate Covers(blocks: seq<BlockWithTxs>, start: U64, end: U64, chain: seq<Block>) {
    && start <= end
    && |blocks| == (if end - start <= 999 then end - start else 999) + 1
    && start + |blocks| <= |chain|
    && forall i :: 0 <= i < |blocks| ==>
         blocks[i].header == chain[start + i].header && blocks[i].header.height == start + i
  }

  /** Every transaction shown is word for word one that was fetched, held or brought in. */
  ghost predicate EachFrom(
    blocks: seq<BlockWithTxs>, start: nat, chain: seq<Block>,
    held: Store<Hash32, TxEntry>, came: set<(Hash32, TxEntry)>, txs: TxMap)
  {
    && start + |blocks| <= |chain|
    && forall i :: 0 <= i < |blocks| ==> AllFrom(blocks[i].txs, BlockHashes(chain[start + i]), held, came, txs)
  }

  function Lists(blocks: seq<Block>): (r: seq<seq<Hash32>>)
    ensures |r| == |blocks|
  {
    seq(|blocks|, i requires 0 <= i < |blocks| => BlockHashes(blocks[i]))
  }

  /** What the blocks from `start` to before `end` list. */
  ghost predicate ListsOf(lists: seq<seq<Hash32>>, chain: seq<Block>, start: nat, end: nat) {
    start <= end <= |chain| && lists == Lists(chain[start..end])
  }

  lemma ListsStart(chain: seq<Block>, start: nat)
    requires start <= |chain|
    ensures ListsOf([], chain, start, start)
  {
  }

  lemma ListsGrow(lists: seq<seq<Hash32>>, chain: seq<Block>, start: nat, end: nat)
    requires ListsOf(lists, chain, start, end) && end < |chain|
    ensures ListsOf(lists + [BlockHashes(chain[end])], chain, start, end + 1)
  {
    hide BlockHashes;
    assert chain[start..end + 1] == chain[start..end] + [chain[end]];
  }

  lemma ListsEnd(lists: seq<seq<Hash32>>, chain: seq<Block>, start: nat, end: nat)
    requires ListsOf(lists, chain, start, end)
    ensures lists == Lists(chain[start..end])
  {
    hide Lists;
  }

  lemma HeaderAt(headers: seq<Header>, chain: seq<Block>, start: nat, i: nat)
    requires start + |headers| <= |chain| && headers == Headers(chain[start..start + |headers|])
    requires i < |headers|
    ensures headers[i] == chain[start + i].header
  {
  }

  function HoldingOne(header: Header): nat {
    if header.numTxes > 0 then 1 else 0
  }

  /** How many blocks hold anything besides their coinbase. */
  function Holding(headers: seq<Header>): nat {
    if headers == [] then 0 else Holding(headers[..|headers| - 1]) + HoldingOne(headers[|headers| - 1])
  }

  lemma {:induction false} HoldingGrows(headers: seq<Header>, i: nat)
    requires i < |headers|
    ensures Holding(headers[..i + 1]) == Holding(headers[..i]) + HoldingOne(headers[i])
    ensures Holding(headers[..i + 1]) <= Holding(headers)
    decreases |headers|
  {
    assert headers[..i + 1][..i] == headers[..i];
    if i + 1 < |headers| {
      var shorter := headers[..|headers| - 1];
      HoldingGrows(shorter, i);
      assert shorter[..i + 1] == headers[..i + 1];
    } else {
      assert headers[..i + 1] == headers;
    }
  }

  /** The calls a range costs from cold. */
  function RangeCalls(range: seq<Block>): nat {
    1 + Holding(Headers(range)) + Chunks(|FlatHashes(Lists(range))|)
  }

  /** In plain numbers: one, and one for each block that holds anything, and one for each 500 hashes. */
  lemma RangeCallsAre(range: seq<Block>)
    ensures RangeCalls(range) ==
            1 + |set i | 0 <= i < |range| && range[i].header.numTxes > 0| + (|FlatHashes(Lists(range))| + 499) / 500
  {
    HoldingCounts(Headers(range));
    hide Holding, FlatHashes, Lists;
    assert (set i | 0 <= i < |range| && range[i].header.numTxes > 0)
        == set i | 0 <= i < |Headers(range)| && Headers(range)[i].numTxes > 0;
  }

  lemma {:induction false} HoldingCounts(headers: seq<Header>)
    ensures Holding(headers) == |set i | 0 <= i < |headers| && headers[i].numTxes > 0|
  {
    var all := set i | 0 <= i < |headers| && headers[i].numTxes > 0;
    if headers == [] {
      assert all == {};
    } else {
      var n := |headers| - 1;
      var before := set i | 0 <= i < n && headers[..n][i].numTxes > 0;
      HoldingCounts(headers[..n]);
      assert all == if headers[n].numTxes > 0 then before + {n} else before;
    }
  }

  lemma NoTransactions(block: Block)
    requires block.txHashes == []
    ensures BlockHashes(block) == ParseAll([block.minerTxHash])
  {
  }

  function FlatHashes(lists: seq<seq<Hash32>>): seq<Hash32> {
    if lists == [] then [] else lists[0] + FlatHashes(lists[1..])
  }

  lemma {:induction false} FlatHashesHolds(lists: seq<seq<Hash32>>, i: nat, h: Hash32)
    requires i < |lists| && h in lists[i]
    ensures h in FlatHashes(lists)
    decreases |lists|
  {
    if i > 0 {
      FlatHashesHolds(lists[1..], i - 1, h);
    }
  }

  /** `filter_map` into a map keyed by the hash each entry carries. */
  function ByHashMap(entries: seq<TxEntry>): TxMap {
    if entries == [] then map[]
    else
      var last := entries[|entries| - 1];
      var before := ByHashMap(entries[..|entries| - 1]);
      match HashFromText(last.txHash)
      case Hash(h) => before[h := last]
      case _ => before
  }

  function Zip(headers: seq<Header>, txs: seq<seq<TxEntry>>): seq<BlockWithTxs>
    requires |headers| == |txs|
  {
    seq(|headers|, i requires 0 <= i < |headers| => BlockWithTxs(headers[i], txs[i]))
  }

  /** A block of an answer, with what ages taken out. */
  function View(b: BlockWithTxs): BlockWithTxs {
    BlockWithTxs(b.header.Stable(), StableAll(b.txs))
  }

  function Views(blocks: seq<BlockWithTxs>): (r: seq<BlockWithTxs>)
    ensures |r| == |blocks|
  {
    seq(|blocks|, i requires 0 <= i < |blocks| => View(blocks[i]))
  }

  lemma ViewsGrow(blocks: seq<BlockWithTxs>, b: BlockWithTxs)
    ensures Views(blocks + [b]) == Views(blocks) + [View(b)]
  {
  }

  /** What the fan-out says of a range: one map of transactions, shared out block by block. */
  function FanOut(range: seq<Block>, txs: TxMap): seq<BlockWithTxs> {
    var shared := Distribute(Lists(range), txs);
    DistributeLength(Lists(range), txs);
    seq(|range|, i requires 0 <= i < |range| => BlockWithTxs(range[i].header.Stable(), shared[i]))
  }

  /** What one block says on its own. */
  function Alone(block: Block, txs: TxMap): BlockWithTxs {
    BlockWithTxs(block.header.Stable(), InRequestedOrder(BlockHashes(block), txs))
  }

  function EachAlone(range: seq<Block>, txs: TxMap): (r: seq<BlockWithTxs>)
    ensures |r| == |range|
  {
    seq(|range|, i requires 0 <= i < |range| => Alone(range[i], txs))
  }

  /** The blocks from `start` to before `end`, each as it is alone. */
  ghost predicate EachShown(blocks: seq<BlockWithTxs>, chain: seq<Block>, start: nat, end: nat, txs: TxMap) {
    start <= end <= |chain| && Views(blocks) == EachAlone(chain[start..end], txs)
  }

  lemma EachShownStart(chain: seq<Block>, start: nat, txs: TxMap)
    requires start <= |chain|
    ensures EachShown([], chain, start, start, txs)
  {
  }

  lemma EachShownGrows(blocks: seq<BlockWithTxs>, b: BlockWithTxs, chain: seq<Block>, start: nat, end: nat, txs: TxMap)
    requires EachShown(blocks, chain, start, end, txs) && end < |chain| && View(b) == Alone(chain[end], txs)
    ensures EachShown(blocks + [b], chain, start, end + 1, txs)
  {
    hide Alone, View;
    ViewsGrow(blocks, b);
    assert chain[start..end + 1] == chain[start..end] + [chain[end]];
    assert EachAlone(chain[start..end + 1], txs) == EachAlone(chain[start..end], txs) + [Alone(chain[end], txs)];
  }

  lemma EachShownEnd(blocks: seq<BlockWithTxs>, chain: seq<Block>, start: nat, end: nat, txs: TxMap)
    requires EachShown(blocks, chain, start, end, txs)
    ensures Views(blocks) == EachAlone(chain[start..end], txs)
  {
    hide Views, EachAlone;
  }

  lemma NothingAsked(txs: TxMap)
    ensures Chunks(0) == 0 && Texts(Unknown([], txs)) == []
    ensures StableAll([]) == StableAll(InRequestedOrder([], txs)) && FromNode([], [], txs)
    ensures InRequestedOrder([], txs) == InRequestedOrder([], map[]) == []
  {
  }

  lemma NothingUnknown(txs: TxMap)
    ensures Texts(Unknown([], txs)) == []
  {
  }

  lemma EntriesNamed(hashes: seq<Hash32>, entries: seq<TxEntry>, txs: TxMap)
    requires entries == Entries(hashes, txs)
    requires forall h :: h in txs ==> HashFromText(txs[h].txHash) == Hash(h)
    ensures forall e :: e in entries ==>
              HashFromText(e.txHash).Hash? && HashFromText(e.txHash).hash in hashes
              && HashFromText(e.txHash).hash in txs && txs[HashFromText(e.txHash).hash] == e
    ensures forall h :: h in txs && txs[h] in entries <==> h in txs && h in hashes
  {
    EntriesAre(hashes, txs);
    hide HashFromText, Entries;
    forall e | e in entries
      ensures HashFromText(e.txHash).Hash? && HashFromText(e.txHash).hash in hashes
              && HashFromText(e.txHash).hash in txs && txs[HashFromText(e.txHash).hash] == e
    {
      var h :| h in hashes && h in txs && txs[h] == e;
    }
    forall h | h in txs && txs[h] in entries ensures h in hashes {
      var h' :| h' in hashes && h' in txs && txs[h'] == txs[h];
    }
  }

  /** Every entry is one of the daemon's, up to what ages, for a hash that was asked for. */
  ghost predicate FromNode(entries: seq<TxEntry>, hashes: seq<Hash32>, txs: TxMap) {
    forall e :: e in entries ==> exists h :: h in hashes && h in txs && e.Stable() == txs[h].Stable()
  }

  lemma OrderFromNode(hashes: seq<Hash32>, found: TxMap, txs: TxMap)
    requires Partial(found, txs)
    ensures FromNode(InRequestedOrder(hashes, found), hashes, txs)
  {
    InRequestedOrderSpec(hashes, found);
    KnownHashesSpec(hashes, found.Keys);
    var known := KnownHashes(hashes, found.Keys);
    hide KnownHashes, InRequestedOrder;
    forall e | e in Lookup(known, found) ensures exists h :: h in hashes && h in txs && e.Stable() == txs[h].Stable() {
      var i :| 0 <= i < |known| && Lookup(known, found)[i] == e;
      assert known[i] in known && known[i] in hashes;
    }
  }

  /** Some of the daemon's transactions, up to what ages. */
  ghost predicate Partial(found: TxMap, txs: TxMap) {
    forall h :: h in found ==> h in txs && found[h].Stable() == txs[h].Stable()
  }

  lemma TrustedNames(chain: seq<Block>, blocks: map<Hash32, Block>, txs: TxMap)
    requires Honest(chain, blocks, txs)
    ensures forall h :: h in txs ==> HashFromText(txs[h].txHash) == Hash(h)
  {
    hide HashFromText;
  }

  /** Entry i is, up to what ages, the daemon's entry for hash i. */
  ghost predicate EntriesFor(entries: seq<TxEntry>, known: seq<Hash32>, txs: TxMap) {
    && |entries| == |known|
    && forall i :: 0 <= i < |entries| ==> known[i] in txs && entries[i].Stable() == txs[known[i]].Stable()
  }

  /** A map built from entries holds each under its own hash. */
  lemma {:induction false} ByHashMapSpec(entries: seq<TxEntry>, known: seq<Hash32>, txs: TxMap)
    requires EntriesFor(entries, known, txs) && NoDuplicates(known)
    requires forall h :: h in txs ==> HashFromText(txs[h].txHash) == Hash(h)
    ensures forall h :: h in ByHashMap(entries) <==> h in known
    ensures forall h :: h in known ==> h in txs && ByHashMap(entries)[h].Stable() == txs[h].Stable()
  {
    hide HashFromText;
    if entries != [] {
      var n := |entries| - 1;
      var last := entries[n];
      ByHashMapSpec(entries[..n], known[..n], txs);
      assert last.txHash == last.Stable().txHash == txs[known[n]].txHash;
      assert ByHashMap(entries) == ByHashMap(entries[..n])[known[n] := last];
      hide ByHashMap;
      assert known == known[..n] + [known[n]];
    }
  }

  /** The map made from an answer holds what was listed and known, up to what ages. */
  lemma FetchedAges(flat: seq<Hash32>, entries: seq<TxEntry>, txs: TxMap)
    requires forall h :: h in txs ==> HashFromText(txs[h].txHash) == Hash(h)
    requires StableAll(entries) == StableAll(InRequestedOrder(flat, txs))
    ensures Ages(flat, ByHashMap(entries), StableMap(txs))
  {
    var known := KnownHashes(flat, txs.Keys);
    InRequestedOrderSpec(flat, txs);
    KnownHashesSpec(flat, txs.Keys);
    hide InRequestedOrder, KnownHashes, HashFromText;
    assert |entries| == |StableAll(entries)| == |known|;
    forall i | 0 <= i < |entries| ensures known[i] in txs && entries[i].Stable() == txs[known[i]].Stable() {
      assert StableAll(entries)[i] == StableAll(Lookup(known, txs))[i];
      assert known[i] in known;
    }
    ByHashMapSpec(entries, known, txs);
    hide ByHashMap;
  }

  lemma SharedView(lists: seq<seq<Hash32>>, flat: seq<Hash32>, entries: seq<TxEntry>, txs: TxMap)
    requires flat == FlatHashes(lists)
    requires forall h :: h in txs ==> HashFromText(txs[h].txHash) == Hash(h)
    requires StableAll(entries) == StableAll(InRequestedOrder(flat, txs))
    ensures var shared, expected := Distribute(lists, ByHashMap(entries)), Distribute(lists, StableMap(txs));
            && |shared| == |expected| == |lists|
            && forall i :: 0 <= i < |lists| ==> StableAll(shared[i]) == expected[i]
  {
    FetchedAges(flat, entries, txs);
    hide ByHashMap, HashFromText, InRequestedOrder, Distribute, StableMap;
    forall k | 0 <= k < |lists| ensures Ages(lists[k], ByHashMap(entries), StableMap(txs)) {
      forall h | h in lists[k] ensures h in flat {
        FlatHashesHolds(lists, k, h);
      }
    }
    DistributeLength(lists, ByHashMap(entries));
    DistributeLength(lists, StableMap(txs));
    forall i | 0 <= i < |lists|
      ensures StableAll(Distribute(lists, ByHashMap(entries))[i]) == Distribute(lists, StableMap(txs))[i]
    {
      StableDistribute(lists, ByHashMap(entries), StableMap(txs), i);
    }
  }

  lemma RangeCovered(
      headers: seq<Header>, shared: seq<seq<TxEntry>>, start: U64, end: U64,
      chain: seq<Block>, blocks: map<Hash32, Block>, txs: TxMap)
    requires Honest(chain, blocks, txs) && Spans(headers, start, end, chain) && |shared| == |headers|
    ensures Covers(Zip(headers, shared), start, end, chain)
  {
    forall i | 0 <= i < |headers| ensures headers[i].height == start + i {
      assert HeaderAgrees(chain[start + i], start + i);
    }
    hide HeaderAgrees;
  }

  lemma RangeFrom(
      headers: seq<Header>, shared: seq<seq<TxEntry>>, start: nat, chain: seq<Block>,
      held: Store<Hash32, TxEntry>, came: set<(Hash32, TxEntry)>, txs: TxMap)
    requires |shared| == |headers| && start + |headers| <= |chain|
    requires var range := chain[start..start + |headers|];
             forall i :: 0 <= i < |range| ==> AllFrom(shared[i], BlockHashes(range[i]), held, came, txs)
    ensures EachFrom(Zip(headers, shared), start, chain, held, came, txs)
  {
    var range := chain[start..start + |headers|];
    hide AllFrom, BlockHashes;
    forall i | 0 <= i < |headers| ensures AllFrom(shared[i], BlockHashes(chain[start + i]), held, came, txs) {
      assert range[i] == chain[start + i];
    }
  }

  /** Whatever may be answered for a hash carries that hash. */
  ghost predicate NamesHold(held: Store<Hash32, TxEntry>, came: set<(Hash32, TxEntry)>, txs: TxMap) {
    && (forall h :: h in txs ==> HashFromText(txs[h].txHash) == Hash(h))
    && (forall h :: h in held ==> HashFromText(held[h].value.txHash) == Hash(h))
    && (forall p :: p in came ==> HashFromText(p.1.txHash) == Hash(p.0))
  }

  lemma NamesHoldAlready(held: Store<Hash32, TxEntry>, came: set<(Hash32, TxEntry)>, txs: TxMap)
    requires TxsConsistent(held, came, txs) && forall h :: h in txs ==> HashFromText(txs[h].txHash) == Hash(h)
    ensures NamesHold(held, came, txs)
  {
    hide HashFromText;
    forall h | h in held ensures HashFromText(held[h].value.txHash) == Hash(h) {
      assert TxFits(h, held[h].value, txs);
      assert held[h].value.Stable().txHash == txs[h].Stable().txHash;
    }
    forall p | p in came ensures HashFromText(p.1.txHash) == Hash(p.0) {
      assert p.1.Stable().txHash == txs[p.0].Stable().txHash;
    }
  }

  lemma FromIsNamed(e: TxEntry, h: Hash32, held: Store<Hash32, TxEntry>, came: set<(Hash32, TxEntry)>, txs: TxMap)
    requires TxFrom(e, h, held, came, txs) && NamesHold(held, came, txs)
    ensures HashFromText(e.txHash) == Hash(h)
  {
    hide HashFromText;
  }

  lemma FirstOnesFrom(
      entries: seq<TxEntry>, flat: seq<Hash32>,
      held: Store<Hash32, TxEntry>, came: set<(Hash32, TxEntry)>, txs: TxMap)
    requires entries != [] && AllFrom(entries, flat, held, came, txs)
    ensures AllFrom(entries[..|entries| - 1], flat, held, came, txs)
  {
    hide TxFrom;
    var before := entries[..|entries| - 1];
    forall e | e in before ensures exists h :: h in flat && TxFrom(e, h, held, came, txs) {
      assert e in entries;
    }
  }

  lemma LastFrom(
      entries: seq<TxEntry>, flat: seq<Hash32>,
      held: Store<Hash32, TxEntry>, came: set<(Hash32, TxEntry)>, txs: TxMap)
    returns (h: Hash32)
    requires entries != [] && AllFrom(entries, flat, held, came, txs)
    ensures h in flat && TxFrom(entries[|entries| - 1], h, held, came, txs)
  {
    hide TxFrom;
    var last := entries[|entries| - 1];
    assert last in entries;
    h :| h in flat && TxFrom(last, h, held, came, txs);
  }

  // ---------------------------------------------------------------- what a batch leaves in the cache

  /** Confirmed, by sixty blocks or more counting its own. */
  predicate IsKept(e: TxEntry) {
    !e.inPool && e.confirmations >= 60
  }

  /** What was there, and the transactions of these hashes that are to be kept; no others. */
  ghost predicate Kept(
    now: Store<Hash32, TxEntry>, first: Store<Hash32, TxEntry>, hashes: seq<Hash32>, txs: TxMap)
  {
    && |now| <= |first| + |hashes|
    && forall h :: h in now <==> h in first || (h in hashes && h in txs && IsKept(txs[h]))
  }

  ghost predicate KeptSome(
    now: Store<Hash32, TxEntry>, first: Store<Hash32, TxEntry>, entries: seq<TxEntry>, txs: TxMap)
  {
    forall h :: h in now <==> h in first || (h in txs && txs[h] in entries && IsKept(txs[h]))
  }

  lemma NothingKept(first: Store<Hash32, TxEntry>, txs: TxMap)
    ensures KeptSome(first, first, [], txs) && Kept(first, first, [], txs)
  {
  }

  lemma KeptOneMore(
      now: Store<Hash32, TxEntry>, before: Store<Hash32, TxEntry>, first: Store<Hash32, TxEntry>,
      done: seq<TxEntry>, h: Hash32, txs: TxMap)
    requires KeptSome(before, first, done, txs) && h in txs
    requires forall k :: k in txs ==> HashFromText(txs[k].txHash) == Hash(k)
    requires if IsKept(txs[h]) then now.Keys == before.Keys + {h} else now.Keys == before.Keys
    ensures KeptSome(now, first, done + [txs[h]], txs)
  {
    hide HashFromText, IsKept;
    assert forall k :: k in now <==> k in now.Keys;
    assert forall k :: k in before <==> k in before.Keys;
    forall k | k in txs ensures txs[k] in done + [txs[h]] <==> txs[k] in done || k == h {
      assert HashFromText(txs[k].txHash) == Hash(k) && HashFromText(txs[h].txHash) == Hash(h);
    }
  }

  lemma KeptAll(
      now: Store<Hash32, TxEntry>, first: Store<Hash32, TxEntry>, hashes: seq<Hash32>, txs: TxMap)
    requires KeptSome(now, first, Entries(hashes, txs), txs) && |now| <= |first| + |hashes|
    requires forall h :: h in txs && txs[h] in Entries(hashes, txs) <==> h in txs && h in hashes
    ensures Kept(now, first, hashes, txs)
  {
    hide IsKept;
  }

  lemma KeptJoins(
      now: Store<Hash32, TxEntry>, between: Store<Hash32, TxEntry>, first: Store<Hash32, TxEntry>,
      a: seq<Hash32>, b: seq<Hash32>, txs: TxMap)
    requires Kept(between, first, a, txs) && Kept(now, between, b, txs)
    ensures Kept(now, first, a + b, txs)
  {
    hide IsKept;
  }

  lemma KeptSize(
      now: Store<Hash32, TxEntry>, first: Store<Hash32, TxEntry>, hashes: seq<Hash32>, txs: TxMap)
    requires Kept(now, first, hashes, txs)
    ensures |now| <= |first| + |hashes|
  {
  }

  lemma SameSize(a: Store<Hash32, TxEntry>, b: Store<Hash32, TxEntry>)
    requires a.Keys == b.Keys
    ensures |a| == |b|
  {
    assert |a| == |a.Keys| && |b| == |b.Keys|;
  }

  /** Asking for those not held leaves what asking for all of them would. */
  lemma KeptOfWanted(
      now: Store<Hash32, TxEntry>, between: Store<Hash32, TxEntry>, held: Store<Hash32, TxEntry>,
      want: seq<Hash32>, hashes: seq<Hash32>, txs: TxMap)
    requires between.Keys == held.Keys && Kept(now, between, want, txs)
    requires forall h :: h in want ==> h in hashes
    requires forall h :: h in hashes ==> h in held || h in want
    ensures forall h :: h in now <==> h in held || (h in hashes && h in txs && IsKept(txs[h]))
  {
    hide IsKept;
    assert forall h :: h in between <==> h in between.Keys;
    assert forall h :: h in held <==> h in held.Keys;
  }

  lemma {:induction false} EntriesFewer(hashes: seq<Hash32>, txs: TxMap)
    ensures |Entries(hashes, txs)| <= |hashes|
  {
    if hashes != [] {
      EntriesFewer(hashes[1..], txs);
    }
  }

  lemma {:induction false} ByHashMapFrom(
      entries: seq<TxEntry>, flat: seq<Hash32>,
      held: Store<Hash32, TxEntry>, came: set<(Hash32, TxEntry)>, txs: TxMap)
    requires AllFrom(entries, flat, held, came, txs) && NamesHold(held, came, txs)
    ensures MapFrom(ByHashMap(entries), held, came, txs)
  {
    hide HashFromText, NamesHold, TxFrom;
    if entries != [] {
      var before, last := entries[..|entries| - 1], entries[|entries| - 1];
      FirstOnesFrom(entries, flat, held, came, txs);
      ByHashMapFrom(before, flat, held, came, txs);
      var h := LastFrom(entries, flat, held, came, txs);
      FromIsNamed(last, h, held, came, txs);
      assert ByHashMap(entries) == ByHashMap(before)[h := last];
      hide ByHashMap;
    }
  }

  lemma {:induction false} DistributeFrom(
      lists: seq<seq<Hash32>>, found: TxMap, i: nat,
      held: Store<Hash32, TxEntry>, came: set<(Hash32, TxEntry)>, txs: TxMap)
    requires i < |lists| && MapFrom(found, held, came, txs)
    ensures |Distribute(lists, found)| == |lists|
    ensures AllFrom(Distribute(lists, found)[i], lists[i], held, came, txs)
    decreases |lists|
  {
    hide InRequestedOrder, TxFrom;
    DistributeLength(lists, found);
    if i == 0 {
      OrderFrom(lists[0], found, held, came, txs);
    } else {
      DistributeFrom(lists[1..], found - Listed(lists[0]), i - 1, held, came, txs);
    }
    hide AllFrom;
  }

  /** What is shared out is what was fetched, each entry under the hash it was fetched for. */
  lemma SharedFrom(
      range: seq<Block>, flat: seq<Hash32>, entries: seq<TxEntry>,
      held: Store<Hash32, TxEntry>, came: set<(Hash32, TxEntry)>, txs: TxMap)
    requires AllFrom(entries, flat, held, came, txs) && NamesHold(held, came, txs)
    ensures |Distribute(Lists(range), ByHashMap(entries))| == |range|
    ensures forall i :: 0 <= i < |range| ==>
              AllFrom(Distribute(Lists(range), ByHashMap(entries))[i], BlockHashes(range[i]), held, came, txs)
  {
    ByHashMapFrom(entries, flat, held, came, txs);
    DistributeLength(Lists(range), ByHashMap(entries));
    forall i | 0 <= i < |range|
      ensures AllFrom(Distribute(Lists(range), ByHashMap(entries))[i], BlockHashes(range[i]), held, came, txs)
    {
      DistributeFrom(Lists(range), ByHashMap(entries), i, held, came, txs);
    }
  }

  ghost predicate Listing(
    headers: seq<Header>, wanted: seq<seq<Hash32>>, start: U64, end: U64, chain: seq<Block>)
  {
    && start <= LastOf(start, end) < |chain| && Spans(headers, start, end, chain)
    && headers == Headers(chain[start..LastOf(start, end) + 1])
    && wanted == Lists(chain[start..LastOf(start, end) + 1])
  }

  lemma ListingCalls(headers: seq<Header>, wanted: seq<seq<Hash32>>, start: U64, end: U64, chain: seq<Block>)
    requires Listing(headers, wanted, start, end, chain)
    ensures start <= LastOf(start, end) < |chain|
    ensures RangeCalls(chain[start..LastOf(start, end) + 1]) == 1 + Holding(headers) + Chunks(|FlatHashes(wanted)|)
  {
    hide LastOf, Lists, Headers, Holding, Chunks, FlatHashes, Spans;
  }

  /** What the three kinds of calls of a range give. */
  ghost predicate Gathered(
    headers: seq<Header>, wanted: seq<seq<Hash32>>, entries: seq<TxEntry>, start: U64, end: U64,
    chain: seq<Block>, txs: TxMap, held: Store<Hash32, TxEntry>, came: set<(Hash32, TxEntry)>)
  {
    && Listing(headers, wanted, start, end, chain)
    && StableAll(entries) == StableAll(InRequestedOrder(FlatHashes(wanted), txs))
    && AllFrom(entries, FlatHashes(wanted), held, came, txs) && NamesHold(held, came, txs)
  }

  /** All that is promised of a range, from what its three kinds of calls gave. */
  lemma RangeAssembled(
      headers: seq<Header>, wanted: seq<seq<Hash32>>, entries: seq<TxEntry>, start: U64, end: U64,
      chain: seq<Block>, blocks: map<Hash32, Block>, txs: TxMap,
      held: Store<Hash32, TxEntry>, came: set<(Hash32, TxEntry)>)
    requires Honest(chain, blocks, txs) && start <= LastOf(start, end) < |chain|
    requires Gathered(headers, wanted, entries, start, end, chain, txs, held, came)
    ensures var shared := Distribute(wanted, ByHashMap(entries));
            && |shared| == |headers|
            && Views(Zip(headers, shared)) == FanOut(chain[start..LastOf(start, end) + 1], StableMap(txs))
            && Covers(Zip(headers, shared), start, end, chain)
            && EachFrom(Zip(headers, shared), start, chain, held, came, txs)
  {
    var range, shared := chain[start..LastOf(start, end) + 1], Distribute(wanted, ByHashMap(entries));
    assert range == chain[start..start + |headers|] && |range| == |headers| by { hide Lists, Headers; }
    hide *;
    TrustedNames(chain, blocks, txs);
    GatheredMeans(headers, wanted, entries, start, end, chain, txs, held, came);
    SharedView(wanted, FlatHashes(wanted), entries, txs);
    FanOutIs(range, headers, shared, StableMap(txs));
    SharedFrom(range, FlatHashes(wanted), entries, held, came, txs);
    RangeCovered(headers, shared, start, end, chain, blocks, txs);
    RangeFrom(headers, shared, start, chain, held, came, txs);
  }

  lemma GatheredMeans(
      headers: seq<Header>, wanted: seq<seq<Hash32>>, entries: seq<TxEntry>, start: U64, end: U64,
      chain: seq<Block>, txs: TxMap, held: Store<Hash32, TxEntry>, came: set<(Hash32, TxEntry)>)
    requires Gathered(headers, wanted, entries, start, end, chain, txs, held, came)
    ensures start <= LastOf(start, end) < |chain| && Spans(headers, start, end, chain)
    ensures headers == Headers(chain[start..LastOf(start, end) + 1])
    ensures wanted == Lists(chain[start..LastOf(start, end) + 1])
    ensures StableAll(entries) == StableAll(InRequestedOrder(FlatHashes(wanted), txs))
    ensures AllFrom(entries, FlatHashes(wanted), held, came, txs) && NamesHold(held, came, txs)
  {
    hide Spans, Headers, Lists, LastOf, StableAll, InRequestedOrder, FlatHashes, AllFrom, NamesHold;
  }

  lemma FanOutIs(range: seq<Block>, headers: seq<Header>, shared: seq<seq<TxEntry>>, txs: TxMap)
    requires headers == Headers(range) && |shared| == |range|
    requires |Distribute(Lists(range), txs)| == |range|
    requires forall i :: 0 <= i < |range| ==> StableAll(shared[i]) == Distribute(Lists(range), txs)[i]
    ensures Views(Zip(headers, shared)) == FanOut(range, txs)
  {
    hide Distribute, Lists, StableAll;
  }

  lemma SameList(a: Block, b: Block)
    requires a.Stable() == b.Stable()
    ensures BlockHashes(a) == BlockHashes(b)
  {
    StableBlocks(a, b);
    hide ParseAll;
  }

  lemma AloneView(got: Block, block: Block, entries: seq<TxEntry>, txs: TxMap)
    requires got.Stable() == block.Stable()
    requires StableAll(entries) == StableAll(InRequestedOrder(BlockHashes(got), txs))
    ensures View(BlockWithTxs(got.header, entries)) == Alone(block, StableMap(txs))
  {
    assert got.minerTxHash == block.minerTxHash && got.txHashes == block.txHashes;
    assert got.header.Stable() == block.header.Stable();
    StableOrder(BlockHashes(got), txs, StableMap(txs));
    hide InRequestedOrder, StableAll, ParseAll;
  }

  /**
   * The fan-out refines the block-by-block loop: over any range, headers and coinbase-first
   * transaction lists are the same exactly when no known transaction is listed by two of its
   * blocks, as none is on a chain.
   */
  lemma RangeAgrees(range: seq<Block>, txs: TxMap)
    ensures FanOut(range, txs) == EachAlone(range, txs) <==> Apart(Lists(range), txs.Keys)
  {
    var lists := Lists(range);
    DistributeLength(lists, txs);
    forall i | 0 <= i < |lists|
      ensures |Separately(lists, txs)| == |lists|
      ensures EachAlone(range, txs)[i].txs == Separately(lists, txs)[i]
    {
      SeparatelyAt(lists, txs, i);
    }
    SeparatelyLength(lists, txs);
    if Apart(lists, txs.Keys) {
      DistributeApart(lists, txs);
      hide Distribute, Separately, InRequestedOrder, Lists;
    }
    if FanOut(range, txs) == EachAlone(range, txs) {
      hide InRequestedOrder, Lists;
      forall i | 0 <= i < |lists| ensures Distribute(lists, txs)[i] == Separately(lists, txs)[i] {
        assert FanOut(range, txs)[i].txs == EachAlone(range, txs)[i].txs;
      }
      assert Distribute(lists, txs) == Separately(lists, txs);
      DistributeNeedsApart(lists, txs);
    }
  }

  lemma SeparatelyLength(lists: seq<seq<Hash32>>, txs: TxMap)
    ensures |Separately(lists, txs)| == |lists|
  {
    if lists != [] {
      SeparatelyAt(lists, txs, 0);
    }
  }
}
