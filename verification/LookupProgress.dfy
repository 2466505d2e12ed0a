/**
 * That lookups get somewhere: from any state a block of the chain can be asked for by either of its
 * names, is answered as the chain has it, and is then in the caches as the rules say; and the same of
 * a transaction.
 */
module LookupProgress {
  import opened Words
  import opened BlockIds
  import opened Caching
  import opened ReorgMachine
  import opened ReorgSafety

  // ---------------------------------------------------------------- blocks

  /** The chain's block at a height, by either of its names. */
  predicate IsNameOf(id: BlockId, chain: seq<Content>, height: nat) {
    height < |chain| && match id case Height(h) => h == height case ByHash(x) => chain[height].hash == x
  }

  ghost predicate IsCached(s: State, id: BlockId) {
    match id case Height(h) => h in s.byHeight.entries case ByHash(x) => x in s.byHash.entries
  }

  /** What is cached is answered at once, as it is cached; nothing is asked of the daemon. */
  lemma CachedIsAnswered(s: State, call: nat, id: BlockId, world: World)
    requires call !in s.calls && IsCached(s, id)
    ensures var s' := AfterAsk(s, call, id);
            && Next(s, Ask(call, id), s', world) && s'.chain == s.chain
            && s'.calls[call].Answered? && s'.calls[call].id == id
            && (id.Height? ==> s'.calls[call].reply == s.byHeight.entries[id.height].value)
            && (id.ByHash? ==> s'.calls[call].reply == s.byHash.entries[id.hash].value)
  {
    hide AfterGet;
  }

  /** What is not waits for the daemon, and the chain's block is always there to take. */
  lemma UncachedIsTaken(s: State, call: nat, id: BlockId, height: nat, world: World)
    requires call !in s.calls && !IsCached(s, id) && IsNameOf(id, s.chain, height)
    ensures var s1 := AfterAsk(s, call, id);
            var s2 := AfterTake(s1, call, Reported(s1.chain, height));
            && Next(s, Ask(call, id), s1, world) && Next(s1, Take(call, height), s2, world)
            && s2.chain == s.chain && IsTaken(s2, call)
            && s2.calls[call].id == id
            && s2.calls[call].reply == Reply(s.chain[height], height, |s.chain| - height - 1)
  {
    hide AfterGet;
  }

  /**
   * Both stores follow, and the call returns what it took.  The block is then held under its hash, and
   * under its height if sixty blocks or more are on top of it; otherwise the heights are left alone.
   */
  lemma TakenIsStored(s: State, call: nat, world: World)
    requires IsTaken(s, call)
    ensures var reply := s.calls[call].reply;
            var s1 := AfterStoreByHash(s, call, world.hashCapacity);
            var s2 := AfterStoreByHeight(s1, call, world.heightCapacity);
            && Next(s, StoreByHash(call), s1, world) && Next(s1, StoreByHeight(call), s2, world)
            && s2.calls[call].Answered? && s2.calls[call].id == s.calls[call].id && s2.calls[call].reply == reply
            && reply.block.hash in s2.byHash.entries && s2.byHash.entries[reply.block.hash].value == reply
            && (reply.depth >= 60 ==>
                  reply.height in s2.byHeight.entries && s2.byHeight.entries[reply.height].value == reply)
            && (reply.depth < 60 ==> s2.byHeight == s.byHeight)
  {
    var reply := s.calls[call].reply;
    InsertKeeps(s.byHash, reply.block.hash, reply, world.hashCapacity);
    InsertKeeps(s.byHeight, reply.height, reply, world.heightCapacity);
    hide AfterInsert;
  }

  // ---------------------------------------------------------------- transactions

  lemma CachedTxIsServed(s: State, fetch: nat, hash: Hash32, world: World)
    requires fetch !in s.fetches && hash in s.txs.entries
    ensures var s' := AfterAskTx(s, fetch, hash);
            && Next(s, AskTx(fetch, hash), s', world)
            && s'.fetches[fetch] == Served(hash, s.txs.entries[hash].value, s.now + 1)
  {
    hide AfterGet;
  }

  /** A transaction of the chain is there to take, with one confirmation for its own block and each above. */
  lemma UncachedTxIsTaken(s: State, fetch: nat, hash: Hash32, height: nat, world: World)
    requires fetch !in s.fetches && hash !in s.txs.entries
    requires height < |s.chain| && hash in s.chain[height].txs
    ensures var s1 := AfterAskTx(s, fetch, hash);
            var s2 := AfterTakeTx(s1, fetch, ReportedTx(s1.chain, hash, height));
            && Next(s, AskTx(fetch, hash), s1, world) && Next(s1, TakeTx(fetch, height), s2, world)
            && s2.fetches[fetch] == Received(Confirmed(hash, height, |s.chain| - height, s.chain[height]))
  {
    hide AfterGet;
  }

  /** It is served as it was received, and kept from sixty confirmations on; a pooled one never is. */
  lemma ReceivedIsServed(s: State, fetch: nat, world: World)
    requires IsReceived(s, fetch)
    ensures var reply := s.fetches[fetch].reply;
            var s' := AfterStoreTx(s, fetch, world.txCapacity);
            && Next(s, StoreTx(fetch), s', world)
            && s'.fetches[fetch] == Served(reply.hash, reply, s.now + 1)
            && (reply.Confirmed? && reply.confirmations >= 60 ==>
                  reply.hash in s'.txs.entries && s'.txs.entries[reply.hash].value == reply)
            && (reply.Pooled? || reply.confirmations < 60 ==> s'.txs == s.txs)
  {
    var reply := s.fetches[fetch].reply;
    InsertKeeps(s.txs, reply.hash, reply, world.txCapacity);
    hide AfterInsert;
  }

  // ---------------------------------------------------------------- reorgs

  /** Any reorg within the world's bound that leaves genesis and lowers nothing can happen. */
  lemma ReorgsHappen(s: State, gone: nat, blocks: seq<Content>, world: World)
    requires gone <= world.deepest && gone < |s.chain| && gone <= |blocks|
    ensures var s' := AfterAdvance(s, gone, blocks);
            && Next(s, Advance(gone, blocks), s', world)
            && s'.chain == s.chain[..|s.chain| - gone] + blocks
            && s'.byHash == s.byHash && s'.byHeight == s.byHeight && s'.txs == s.txs
            && forall h :: |s.chain| - gone <= h < |s.chain| ==> (s.chain[h], h) in s'.orphans
  {
  }
}
