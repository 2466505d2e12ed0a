/**
 * Where the safety of the caches ends: runs of real chains that break it as soon as a bound is
 * passed, and so the exact bounds.
 *
 * The runs are over one chain of distinct blocks, the branch that can replace all of it but
 * genesis, and a single transaction, in block 1 of the chain.
 */
module ReorgLimits {
  import opened Words
  import opened BlockIds
  import opened Caching
  import opened ReorgMachine
  import opened ReorgSafety

  const TX: Hash32 := Repeat(7, 32)
  const LONGEST := 62

  /** The block at a height, on the chain or on the branch. */
  function Marked(branch: bool, height: nat): Content
    requires height < LONGEST
  {
    Content([height, if branch then 1 else 0] + Repeat(0, 30), if height == 1 && !branch then {TX} else {})
  }

  lemma MarkedApart(branch: bool, height: nat, branch': bool, height': nat)
    requires height < LONGEST && height' < LONGEST
    requires Marked(branch, height).hash == Marked(branch', height').hash
    ensures branch == branch' && height == height'
  {
    var h, h' := Marked(branch, height).hash, Marked(branch', height').hash;
    assert h[0] == height && h'[0] == height';
    assert h[1] == (if branch then 1 else 0) && h'[1] == (if branch' then 1 else 0);
  }

  function MainChain(n: nat): (chain: seq<Content>)
    requires n <= LONGEST
    ensures |chain| == n && forall i :: 0 <= i < n ==> chain[i] == Marked(false, i)
  {
    seq(n, i requires 0 <= i < n => Marked(false, i))
  }

  /** n blocks on top of genesis. */
  function Branch(n: nat): (blocks: seq<Content>)
    requires n < LONGEST
    ensures |blocks| == n && forall i :: 0 <= i < n ==> blocks[i] == Marked(true, i + 1)
  {
    seq(n, i requires 0 <= i < n => Marked(true, i + 1))
  }

  /** A block of the chain or of the branch, at its own height. */
  ghost predicate AtHome(b: Content, height: nat) {
    height < LONGEST && exists branch :: b == Marked(branch, height)
  }

  lemma HomesApart(a: Content, i: nat, b: Content, j: nat)
    requires AtHome(a, i) && AtHome(b, j)
    ensures a.hash == b.hash ==> a == b && i == j
    ensures i != j ==> a.txs !! b.txs
  {
    var branch :| a == Marked(branch, i);
    var branch' :| b == Marked(branch', j);
    if a.hash == b.hash {
      MarkedApart(branch, i, branch', j);
    }
  }

  lemma HomesAreReal(s: State)
    requires s.chain != [] && forall i :: 0 <= i < |s.chain| ==> AtHome(s.chain[i], i)
    requires forall o :: o in s.orphans ==> o.1 > 0 && AtHome(o.0, o.1)
    ensures Real(s)
  {
    forall i, j | 0 <= i < j < |s.chain|
      ensures s.chain[i].hash != s.chain[j].hash && s.chain[i].txs !! s.chain[j].txs
    {
      HomesApart(s.chain[i], i, s.chain[j], j);
    }
    forall o, p | o in s.orphans && p in s.orphans && o.0.hash == p.0.hash ensures o == p {
      HomesApart(o.0, o.1, p.0, p.1);
    }
    forall o, i | o in s.orphans && 0 <= i < |s.chain| && s.chain[i].hash == o.0.hash ensures o == (s.chain[i], i) {
      HomesApart(o.0, o.1, s.chain[i], i);
    }
    hide AtHome;
  }

  /** The chain with an orphan or without one, before anything happens. */
  lemma StartIsReal(n: nat, orphans: set<(Content, nat)>)
    requires 0 < n <= LONGEST && orphans <= {(Marked(true, 1), 1)}
    ensures Real(Init(MainChain(n), orphans))
  {
    HomesAreReal(Init(MainChain(n), orphans));
  }

  /** The branch takes over from all of the chain but genesis. */
  lemma BranchTakesOver(s: State, world: World)
    requires 0 < |s.chain| <= LONGEST && s.chain == MainChain(|s.chain|) && s.orphans == {}
    requires |s.chain| - 1 <= world.deepest
    ensures var n := |s.chain| - 1;
            var s' := AfterAdvance(s, n, Branch(n));
            Real(s') && Next(s, Advance(n, Branch(n)), s', world)
    ensures var n := |s.chain| - 1;
            forall i :: 1 <= i <= n ==> AfterAdvance(s, n, Branch(n)).chain[i] == Marked(true, i)
  {
    var n := |s.chain| - 1;
    var s' := AfterAdvance(s, n, Branch(n));
    TookOver(s, n);
    forall i | 0 <= i < |s'.chain| ensures AtHome(s'.chain[i], i) {
      assert s'.chain[i] == Marked(i > 0, i);
    }
    forall o | o in s'.orphans ensures o.1 > 0 && AtHome(o.0, o.1) {
      assert o.0 == Marked(false, o.1);
    }
    assert |Branch(n)| == n;
    hide Marked, AtHome, AfterAdvance, MainChain, Branch, Real;
    HomesAreReal(s');
  }

  lemma TookOver(s: State, n: nat)
    requires |s.chain| == n + 1 <= LONGEST && s.chain == MainChain(n + 1) && s.orphans == {}
    ensures var s' := AfterAdvance(s, n, Branch(n));
            && |s'.chain| == n + 1
            && (forall i :: 0 <= i <= n ==> s'.chain[i] == Marked(i > 0, i))
            && (forall o :: o in s'.orphans ==> 0 < o.1 <= n && o.0 == Marked(false, o.1))
  {
    hide Marked;
  }

  // ---------------------------------------------------------------- blocks

  lemma AskFollows(s: State, id: BlockId, world: World)
    requires s == Init(s.chain, s.orphans)
    ensures var s' := AfterAsk(s, 0, id);
            Next(s, Ask(0, id), s', world) && s'.chain == s.chain && s'.orphans == s.orphans
  {
    hide AfterGet, Hit;
  }

  /** Call 0 has its reply, a deep one: the two stores that end it. */
  lemma BothStoresFollow(s: State, reply: Reply, world: World)
    requires IsTaken(s, 0) && s.calls[0].reply == reply && SafeToCacheByHeight(reply.depth)
    ensures var s' := AfterStoreByHash(s, 0, world.hashCapacity);
            var s'' := AfterStoreByHeight(s', 0, world.heightCapacity);
            && Next(s, StoreByHash(0), s', world) && Next(s', StoreByHeight(0), s'', world)
            && s'.chain == s''.chain == s.chain && s'.orphans == s''.orphans == s.orphans
            && reply.height in s''.byHeight.entries && s''.byHeight.entries[reply.height].value == reply
  {
    InsertKeeps(s.byHeight, reply.height, reply, world.heightCapacity);
    hide AfterInsert;
  }

  /** A lookup that ends with its reply kept under its height: four states after `s`. */
  lemma FetchAndKeep(s: State, id: BlockId, take: Step, reply: Reply, world: World)
    returns (states: seq<State>, steps: seq<Step>)
    requires s == Init(s.chain, s.orphans) && Real(s)
    requires SafeToCacheByHeight(reply.depth)
    requires var asked := AfterAsk(s, 0, id); Next(asked, take, AfterTake(asked, 0, reply), world)
    ensures |states| == 5 && |steps| == 4 && states[0] == s && IsRun(states, steps, world)
    ensures states[4].chain == s.chain && states[4].orphans == s.orphans
    ensures reply.height in states[4].byHeight.entries
    ensures states[4].byHeight.entries[reply.height].value == reply
  {
    var s1 := AfterAsk(s, 0, id);
    var s2 := AfterTake(s1, 0, reply);
    var s3 := AfterStoreByHash(s2, 0, world.hashCapacity);
    var s4 := AfterStoreByHeight(s3, 0, world.heightCapacity);
    AskAndTake(s, id, take, reply, world);
    hide Next, Init, Real, IsRun, AfterAsk, AfterTake, AfterStoreByHash, AfterStoreByHeight;
    BothStoresFollow(s2, reply, world);
    RealStays(s, s3);
    RealStays(s, s4);
    states, steps := [s, s1, s2], [Ask(0, id), take];
    RunExtends(states, steps, StoreByHash(0), s3, world);
    states, steps := states + [s3], steps + [StoreByHash(0)];
    RunExtends(states, steps, StoreByHeight(0), s4, world);
    states, steps := states + [s4], steps + [StoreByHeight(0)];
  }

  lemma AskAndTake(s: State, id: BlockId, take: Step, reply: Reply, world: World)
    requires s == Init(s.chain, s.orphans) && Real(s)
    requires var asked := AfterAsk(s, 0, id); Next(asked, take, AfterTake(asked, 0, reply), world)
    ensures var s1 := AfterAsk(s, 0, id);
            var s2 := AfterTake(s1, 0, reply);
            && IsRun([s, s1, s2], [Ask(0, id), take], world)
            && s2.chain == s.chain && s2.orphans == s.orphans && IsTaken(s2, 0) && s2.calls[0].reply == reply
  {
    var s1 := AfterAsk(s, 0, id);
    var s2 := AfterTake(s1, 0, reply);
    hide Next, Init, Real;
    AskFollows(s, id, world);
    RealStays(s, s1);
    RealStays(s, s2);
  }

  lemma RealStays(s: State, s': State)
    requires Real(s) && s'.chain == s.chain && s'.orphans == s.orphans
    ensures Real(s')
  {
  }

  /** A reorg one block deeper than the window, and a cached block is wrong. */
  lemma DeeperReorgBreaks(world: World) returns (states: seq<State>, steps: seq<Step>)
    requires world.deepest > REORG_WINDOW
    ensures IsRun(states, steps, world) && !Safe(states[|states| - 1])
  {
    var s := Init(MainChain(62), {});
    StartIsReal(62, {});
    var id := Height(1);
    var asked := AfterAsk(s, 0, id);
    var reply := Reported(asked.chain, 1);
    states, steps := FetchAndKeep(s, id, Take(0, 1), reply, world);
    var last := states[4];
    BranchTakesOver(last, world);
    hide Next, IsRun, Real;
    var after := AfterAdvance(last, 61, Branch(61));
    RunExtends(states, steps, Advance(61, Branch(61)), after, world);
    states, steps := states + [after], steps + [Advance(61, Branch(61))];
    assert after.chain[1] == Marked(true, 1) && reply.block == Marked(false, 1);
    ChainAndBranchDiffer(1);
  }

  lemma ChainAndBranchDiffer(height: nat)
    requires height < LONGEST
    ensures Marked(false, height) != Marked(true, height)
  {
    if Marked(false, height) == Marked(true, height) {
      MarkedApart(false, height, true, height);
    }
  }

  /** One orphan answered by hash and reported deep enough, and a cached block is wrong. */
  lemma OrphanBreaks(world: World) returns (states: seq<State>, steps: seq<Step>)
    requires world.answersOrphans
    ensures IsRun(states, steps, world) && !Safe(states[|states| - 1])
  {
    var orphan := Marked(true, 1);
    var s := Init(MainChain(62), {(orphan, 1)});
    StartIsReal(62, {(orphan, 1)});
    ChainAndBranchDiffer(1);
    var id := ByHash(orphan.hash);
    var asked := AfterAsk(s, 0, id);
    var reply := Reply(orphan, 1, |asked.chain| - 1 - 1);
    states, steps := FetchAndKeep(s, id, TakeOrphan(0, orphan, 1), reply, world);
    hide Next, IsRun, Real;
    assert states[4].chain[1] == Marked(false, 1);
  }

  ghost predicate AlwaysSafe(world: World) {
    forall states, steps, n :: IsRun(states, steps, world) && 0 <= n < |states| ==> Safe(states[n])
  }

  /**
   * The window is exactly what keeps the cache by height right: every run is safe if and only if
   * reorgs go no deeper than it and the daemon answers no orphans by hash.  Nothing in the code
   * reads `orphan_status`, so the second half is the daemon's to keep.
   */
  lemma SafeExactlyWithinWindow(world: World)
    ensures AlwaysSafe(world) <==> world.deepest <= REORG_WINDOW && !world.answersOrphans
  {
    if world.deepest > REORG_WINDOW {
      var states, steps := DeeperReorgBreaks(world);
      assert IsRun(states, steps, world);
    } else if world.answersOrphans {
      var states, steps := OrphanBreaks(world);
      assert IsRun(states, steps, world);
    } else {
      forall states, steps, n | IsRun(states, steps, world) && 0 <= n < |states| ensures Safe(states[n]) {
        NeverWrongByHeight(states, steps, world, n);
      }
    }
    hide IsRun, Safe;
  }

  // ---------------------------------------------------------------- transactions

  /** A fetch that ends with its entry kept: three states after `s`. */
  lemma FetchAndKeepTx(s: State, hash: Hash32, height: nat, world: World)
    returns (states: seq<State>, steps: seq<Step>)
    requires s == Init(s.chain, s.orphans) && Real(s)
    requires height + REORG_WINDOW <= |s.chain| && hash in s.chain[height].txs
    ensures |states| == 4 && |steps| == 3 && states[0] == s && IsRun(states, steps, world)
    ensures states[3].chain == s.chain && states[3].orphans == s.orphans
    ensures hash in states[3].txs.entries
    ensures states[3].txs.entries[hash].value == ReportedTx(s.chain, hash, height)
  {
    var reply := ReportedTx(s.chain, hash, height);
    var s1 := AfterAskTx(s, 0, hash);
    var s2 := AfterTakeTx(s1, 0, reply);
    var s3 := AfterStoreTx(s2, 0, world.txCapacity);
    steps := [AskTx(0, hash), TakeTx(0, height), StoreTx(0)];
    states := [s, s1, s2, s3];
    hide Init, Linked, OrphansApart;
    assert Next(s, steps[0], s1, world);
    assert Next(s1, steps[1], s2, world);
    assert Next(s2, steps[2], s3, world);
    hide Next, AfterInsert, AfterGet, Hit;
    forall i | 0 <= i < 3 ensures Next(states[i], steps[i], states[i + 1], world) {
    }
    forall i | 0 <= i < 4 ensures Real(states[i]) {
    }
  }

  /**
   * A transaction with sixty confirmations is kept, a reorg of sixty blocks replaces its block, and
   * the cached entry names a height whose block does not hold it.
   */
  lemma WindowReorgLosesTx(world: World) returns (states: seq<State>, steps: seq<Step>)
    requires world.deepest >= REORG_WINDOW
    ensures IsRun(states, steps, world)
    ensures !TxSafe(states[|states| - 1]) && !TxFound(states[|states| - 1])
  {
    var s := Init(MainChain(61), {});
    StartIsReal(61, {});
    states, steps := FetchAndKeepTx(s, TX, 1, world);
    var last := states[3];
    BranchTakesOver(last, world);
    hide Next, IsRun, Real;
    var after := AfterAdvance(last, 60, Branch(60));
    RunExtends(states, steps, Advance(60, Branch(60)), after, world);
    states, steps := states + [after], steps + [Advance(60, Branch(60))];
    assert after.chain[1] == Marked(true, 1) && after.txs == last.txs;
    ChainAndBranchDiffer(1);
  }

  ghost predicate AlwaysTxSafe(world: World) {
    forall states, steps, n :: IsRun(states, steps, world) && 0 <= n < |states| ==> TxSafe(states[n])
  }

  ghost predicate AlwaysTxFound(world: World) {
    forall states, steps, n :: IsRun(states, steps, world) && 0 <= n < |states| ==> TxFound(states[n])
  }

  /**
   * Cached transactions are safe only from reorgs shallower than the window: in every run each is
   * still in the block it was taken from, at the height it records, if and only if reorgs replace
   * fewer than sixty blocks.  Blocks by height bear sixty.
   */
  lemma TxSafeExactlyBelowWindow(world: World)
    ensures AlwaysTxSafe(world) <==> world.deepest < REORG_WINDOW
    ensures AlwaysTxFound(world) <==> world.deepest < REORG_WINDOW
  {
    if world.deepest >= REORG_WINDOW {
      var states, steps := WindowReorgLosesTx(world);
      assert IsRun(states, steps, world);
    } else {
      forall states, steps, n | IsRun(states, steps, world) && 0 <= n < |states|
        ensures TxSafe(states[n]) && TxFound(states[n])
      {
        TxNeverWrong(states, steps, world, n);
      }
    }
    hide IsRun, TxSafe, TxFound;
  }
}
