/**
 * What no run of the machine can break: nothing cached by height is ever wrong, every answer was
 * true, and a cached transaction is still in its block, each exactly as long as reorgs stay
 * within its own bound.
 */
module ReorgSafety {
  import opened Words
  import opened BlockIds
  import opened Caching
  import opened ReorgMachine

  // ---------------------------------------------------------------- blocks cached by height

  /** Nothing cached by height is wrong: each entry is the block now at that height. */
  ghost predicate Safe(s: State) {
    forall h :: h in s.byHeight.entries ==> h < |s.chain| && s.byHeight.entries[h].value.block == s.chain[h]
  }

  /** The block is on the main chain, under enough others that no reorg reaches it. */
  ghost predicate Buried(chain: seq<Content>, reply: Reply) {
    reply.height + REORG_WINDOW < |chain| && chain[reply.height] == reply.block
  }

  ghost predicate HeightsBuried(s: State) {
    forall h :: h in s.byHeight.entries ==>
      s.byHeight.entries[h].value.height == h && Buried(s.chain, s.byHeight.entries[h].value)
  }

  predicate HasReply(c: Call) {
    c.Taken? || c.Hashed?
  }

  ghost predicate RepliesBuried(s: State) {
    forall c :: c in s.calls && HasReply(s.calls[c]) && SafeToCacheByHeight(s.calls[c].reply.depth) ==>
      Buried(s.chain, s.calls[c].reply)
  }

  /** What is cached under a hash has that hash. */
  ghost predicate HashesNamed(s: State) {
    forall x :: x in s.byHash.entries ==> s.byHash.entries[x].value.block.hash == x
  }

  ghost predicate Inv(s: State) {
    HeightsBuried(s) && RepliesBuried(s) && HashesNamed(s)
  }

  /** A reorg of at most the window leaves buried blocks where they are, and buried. */
  lemma BuriedStays(s: State, gone: nat, blocks: seq<Content>, reply: Reply)
    requires gone <= REORG_WINDOW && gone < |s.chain| && gone <= |blocks| && Buried(s.chain, reply)
    ensures Buried(AfterAdvance(s, gone, blocks).chain, reply)
  {
  }

  lemma AdvanceKeepsInv(s: State, gone: nat, blocks: seq<Content>)
    requires Inv(s) && gone <= REORG_WINDOW && gone < |s.chain| && gone <= |blocks|
    ensures Inv(AfterAdvance(s, gone, blocks))
  {
    var s' := AfterAdvance(s, gone, blocks);
    forall reply | Buried(s.chain, reply) ensures Buried(s'.chain, reply) {
      BuriedStays(s, gone, blocks, reply);
    }
    hide Buried;
  }

  lemma AskKeepsInv(s: State, call: nat, id: BlockId)
    requires Inv(s)
    ensures Inv(AfterAsk(s, call, id))
  {
    hide AfterGet, Hit, Buried;
    match id {
      case Height(h) => GetKeeps(s.byHeight, h);
      case ByHash(x) => GetKeeps(s.byHash, x);
    }
  }

  lemma TakeKeepsInv(s: State, call: nat, height: nat)
    requires Inv(s) && CanTake(s, call, height)
    ensures Inv(AfterTake(s, call, Reported(s.chain, height)))
  {
  }

  lemma StoreByHashKeepsInv(s: State, call: nat, capacity: nat)
    requires Inv(s) && IsTaken(s, call)
    ensures Inv(AfterStoreByHash(s, call, capacity))
  {
    hide AfterInsert, Buried;
    var reply := s.calls[call].reply;
    InsertKeeps(s.byHash, reply.block.hash, reply, capacity);
  }

  lemma StoreByHeightKeepsInv(s: State, call: nat, capacity: nat)
    requires Inv(s) && call in s.calls && s.calls[call].Hashed?
    ensures Inv(AfterStoreByHeight(s, call, capacity))
  {
    hide AfterInsert, Buried;
    var reply := s.calls[call].reply;
    InsertKeeps(s.byHeight, reply.height, reply, capacity);
  }

  /** The two halves of the state: fetching transactions touches no block, and the other way round. */
  predicate MovesBlocks(step: Step) {
    step.Ask? || step.Take? || step.TakeOrphan? || step.StoreByHash? || step.StoreByHeight? || step.Fail?
  }

  lemma TxStepLeavesBlocks(s: State, step: Step, s': State, world: World)
    requires Next(s, step, s', world) && !MovesBlocks(step) && !step.Advance?
    ensures s'.chain == s.chain && s'.byHash == s.byHash && s'.byHeight == s.byHeight && s'.calls == s.calls
  {
    hide AfterGet, AfterInsert, Hit;
  }

  lemma BlockStepLeavesTxs(s: State, step: Step, s': State, world: World)
    requires Next(s, step, s', world) && (MovesBlocks(step) || step.Advance?)
    ensures s'.txs == s.txs && s'.fetches == s.fetches
    ensures MovesBlocks(step) ==> s'.chain == s.chain
  {
    hide AfterGet, AfterInsert, Hit;
  }

  /** Every step keeps it, as long as reorgs stay within the window and orphans are not answered. */
  lemma StepKeepsInv(s: State, step: Step, s': State, world: World)
    requires Inv(s) && Next(s, step, s', world)
    requires world.deepest <= REORG_WINDOW && !world.answersOrphans
    ensures Inv(s')
  {
    hide AfterAdvance, AfterAsk, AfterTake, AfterStoreByHash, AfterStoreByHeight, Reported, CanTake, Buried;
    match step {
      case Advance(gone, blocks) => AdvanceKeepsInv(s, gone, blocks);
      case Ask(call, id) => AskKeepsInv(s, call, id);
      case Take(call, height) => TakeKeepsInv(s, call, height);
      case TakeOrphan(call, block, height) =>
      case StoreByHash(call) => StoreByHashKeepsInv(s, call, world.hashCapacity);
      case StoreByHeight(call) => StoreByHeightKeepsInv(s, call, world.heightCapacity);
      case Fail(call) =>
      case _ => TxStepLeavesBlocks(s, step, s', world);
    }
  }

  lemma InvImpliesSafe(s: State)
    requires Inv(s)
    ensures Safe(s)
  {
  }

  // ---------------------------------------------------------------- answers

  /** At step m of the run, h was the height of this block on the main chain. */
  ghost predicate WasAt(states: seq<State>, m: nat, h: nat, block: Content) {
    m < |states| && h < |states[m].chain| && states[m].chain[h] == block
  }

  /** The reply was true of the main chain at some step from `since` to `until`. */
  ghost predicate TrueBetween(states: seq<State>, since: nat, until: nat, reply: Reply) {
    exists m :: since <= m <= until && WasAt(states, m, reply.height, reply.block)
  }

  /** The reply is to the question. */
  predicate Answers(reply: Reply, id: BlockId) {
    match id
    case Height(h) => reply.height == h
    case ByHash(x) => reply.block.hash == x
  }

  /** When a reply to this may have been true: by height since the call began, by hash ever. */
  function Since(id: BlockId, started: nat): nat {
    if id.Height? then started else 0
  }

  ghost predicate Truthful(states: seq<State>, c: Call, n: nat) {
    match c
    case Waiting(id, started) => started <= n
    case Answered(id, started, reply, finished) =>
      finished <= n && Answers(reply, id) && TrueBetween(states, Since(id, started), finished, reply)
    case _ =>
      && c.started <= c.takenAt < n && Answers(c.reply, c.id)
      && WasAt(states, c.takenAt, c.reply.height, c.reply.block)
  }

  /** Every block cached under its hash was on the main chain once. */
  ghost predicate Remembered(states: seq<State>, n: nat)
    requires n < |states|
  {
    forall x :: x in states[n].byHash.entries ==> TrueBetween(states, 0, n, states[n].byHash.entries[x].value)
  }

  ghost predicate AllTruthful(states: seq<State>, n: nat)
    requires n < |states|
  {
    && states[n].now == n && Remembered(states, n)
    && forall c :: c in states[n].calls ==> Truthful(states, states[n].calls[c], n)
  }

  lemma TrueLonger(states: seq<State>, since: nat, until: nat, reply: Reply)
    requires TrueBetween(states, since, until, reply)
    ensures TrueBetween(states, since, until + 1, reply)
  {
  }

  lemma TruthfulLater(states: seq<State>, c: Call, n: nat)
    requires Truthful(states, c, n)
    ensures Truthful(states, c, n + 1)
  {
    hide WasAt, TrueBetween, Answers;
  }

  /** The one call a step moves on, if any. */
  function Moved(step: Step): Option<nat> {
    match step
    case Ask(call, _) => Some(call)
    case Take(call, _) => Some(call)
    case TakeOrphan(call, _, _) => Some(call)
    case StoreByHash(call) => Some(call)
    case StoreByHeight(call) => Some(call)
    case Fail(call) => Some(call)
    case _ => None
  }

  lemma OthersUnmoved(s: State, step: Step, s': State, world: World, c: nat)
    requires Next(s, step, s', world) && c in s'.calls && Moved(step) != Some(c)
    ensures c in s.calls && s'.calls[c] == s.calls[c]
  {
    hide AfterGet, AfterInsert, Hit;
  }

  lemma AskTruthful(states: seq<State>, n: nat, call: nat, id: BlockId)
    requires n + 1 < |states| && states[n + 1] == AfterAsk(states[n], call, id)
    requires AllTruthful(states, n) && Inv(states[n])
    ensures Truthful(states, states[n + 1].calls[call], n + 1)
  {
    hide AfterGet, Hit;
    var s, c' := states[n], states[n + 1].calls[call];
    match id {
      case Height(h) =>
        GetKeeps(s.byHeight, h);
        if c'.Answered? {
          assert WasAt(states, n, h, c'.reply.block);
          assert TrueBetween(states, n, n + 1, c'.reply);
        }
      case ByHash(x) =>
        GetKeeps(s.byHash, x);
        if c'.Answered? {
          TrueLonger(states, 0, n, c'.reply);
          hide TrueBetween;
        }
    }
  }

  lemma TakeTruthful(states: seq<State>, n: nat, call: nat, height: nat)
    requires n + 1 < |states| && CanTake(states[n], call, height)
    requires states[n + 1] == AfterTake(states[n], call, Reported(states[n].chain, height))
    requires AllTruthful(states, n)
    ensures Truthful(states, states[n + 1].calls[call], n + 1)
  {
    assert WasAt(states, n, height, states[n].chain[height]);
    assert Truthful(states, states[n].calls[call], n);
    hide TrueBetween, Remembered;
  }

  lemma StoreTruthful(states: seq<State>, c: Call, n: nat, finished: nat)
    requires HasReply(c) && Truthful(states, c, n) && finished == n + 1
    ensures Truthful(states, Hashed(c.id, c.started, c.reply, c.takenAt), n + 1)
    ensures Truthful(states, Answered(c.id, c.started, c.reply, finished), n + 1)
  {
    assert TrueBetween(states, Since(c.id, c.started), finished, c.reply);
    hide TrueBetween, WasAt, Answers;
  }

  lemma MovedTruthful(states: seq<State>, step: Step, n: nat, world: World, call: nat)
    requires n + 1 < |states| && Next(states[n], step, states[n + 1], world) && !world.answersOrphans
    requires AllTruthful(states, n) && Inv(states[n])
    requires Moved(step) == Some(call) && call in states[n + 1].calls
    ensures Truthful(states, states[n + 1].calls[call], n + 1)
  {
    var s := states[n];
    hide Truthful, AfterAsk, AfterInsert, CanTake, AfterTake, Inv, Remembered;
    match step {
      case Ask(_, id) => AskTruthful(states, n, call, id);
      case Take(_, height) => TakeTruthful(states, n, call, height);
      case StoreByHash(_) => StoreTruthful(states, s.calls[call], n, n + 1);
      case StoreByHeight(_) => StoreTruthful(states, s.calls[call], n, n + 1);
      case _ =>
    }
  }

  /** What is stored under a hash was true when it was taken; what was there is still remembered. */
  lemma StepRemembers(states: seq<State>, step: Step, n: nat, world: World)
    requires n + 1 < |states| && Next(states[n], step, states[n + 1], world)
    requires AllTruthful(states, n)
    ensures Remembered(states, n + 1)
  {
    var s, s' := states[n], states[n + 1];
    forall reply | TrueBetween(states, 0, n, reply) ensures TrueBetween(states, 0, n + 1, reply) {
      TrueLonger(states, 0, n, reply);
    }
    hide TrueBetween, AfterGet, AfterInsert, Hit;
    match step {
      case Ask(_, id) =>
        if id.ByHash? {
          GetKeeps(s.byHash, id.hash);
        }
      case StoreByHash(call) =>
        var c := s.calls[call];
        InsertKeeps(s.byHash, c.reply.block.hash, c.reply, world.hashCapacity);
        TakenWasTrue(states, c, n);
      case _ =>
        assert s'.byHash == s.byHash;
    }
  }

  lemma TakenWasTrue(states: seq<State>, c: Call, n: nat)
    requires HasReply(c) && Truthful(states, c, n)
    ensures TrueBetween(states, 0, n, c.reply)
  {
  }

  /** What holds at every state of every run. */
  lemma {:induction false} RunInvariant(states: seq<State>, steps: seq<Step>, world: World, n: nat)
    requires IsRun(states, steps, world) && n < |states|
    requires world.deepest <= REORG_WINDOW && !world.answersOrphans
    ensures Inv(states[n]) && AllTruthful(states, n)
    decreases n
  {
    hide IsRun, Next;
    if n > 0 {
      hide Inv, Truthful, Remembered;
      RunInvariant(states, steps, world, n - 1);
      RunStep(states, steps, world, n);
      var s, step, s' := states[n - 1], steps[n - 1], states[n];
      StepKeepsInv(s, step, s', world);
      StepRemembers(states, step, n - 1, world);
      NowAdvances(s, step, s', world);
      forall c | c in s'.calls ensures Truthful(states, s'.calls[c], n) {
        if Moved(step) == Some(c) {
          MovedTruthful(states, step, n - 1, world, c);
        } else {
          OthersUnmoved(s, step, s', world, c);
          TruthfulLater(states, s'.calls[c], n - 1);
        }
      }
    } else {
      RunStart(states, steps, world);
    }
  }

  /**
   * Over every run, however fetches, stores, growth, reorgs and evictions interleave, nothing
   * cached by height is ever wrong.
   */
  lemma NeverWrongByHeight(states: seq<State>, steps: seq<Step>, world: World, n: nat)
    requires IsRun(states, steps, world) && n < |states|
    requires world.deepest <= REORG_WINDOW && !world.answersOrphans
    ensures Safe(states[n])
  {
    RunInvariant(states, steps, world, n);
    InvImpliesSafe(states[n]);
  }

  /**
   * Every answer is to its question and was true of the main chain at some step before the call
   * returned, cache hits included; by height, at some step of the call itself.
   */
  lemma AnswerWasTrue(states: seq<State>, steps: seq<Step>, world: World, n: nat, call: nat)
    requires IsRun(states, steps, world) && n < |states|
    requires world.deepest <= REORG_WINDOW && !world.answersOrphans
    requires call in states[n].calls && states[n].calls[call].Answered?
    ensures var c := states[n].calls[call];
            && c.finished <= n
            && (c.id.ByHash? ==> c.reply.block.hash == c.id.hash)
            && (c.id.Height? ==> c.reply.height == c.id.height)
            && exists m :: (if c.id.Height? then c.started else 0) <= m <= c.finished
                           && WasAt(states, m, c.reply.height, c.reply.block)
  {
    RunInvariant(states, steps, world, n);
    assert Truthful(states, states[n].calls[call], n);
  }

  // ---------------------------------------------------------------- cached transactions

  /** The entry's transaction is in the block it was taken from. */
  predicate InItsBlock(e: TxReply) {
    e.Confirmed? && e.hash in e.block.txs
  }

  /** The block the entry was taken from is still the one at its height. */
  ghost predicate Current(chain: seq<Content>, e: TxReply) {
    InItsBlock(e) && e.height < |chain| && chain[e.height] == e.block
  }

  ghost predicate TxSafe(s: State) {
    forall x :: x in s.txs.entries ==> s.txs.entries[x].value.hash == x && Current(s.chain, s.txs.entries[x].value)
  }

  /** As much as an entry itself can say: its transaction is in the block now at its height. */
  ghost predicate TxFound(s: State) {
    forall x :: x in s.txs.entries ==>
      var e := s.txs.entries[x].value;
      e.Confirmed? && e.height < |s.chain| && x in s.chain[e.height].txs
  }

  /**
   * Sixty confirmations put a transaction 59 blocks below the tip, so its block has one block
   * fewer above it than a block cached by height.
   */
  ghost predicate TxBuried(chain: seq<Content>, e: TxReply) {
    Current(chain, e) && e.height + REORG_WINDOW <= |chain|
  }

  ghost predicate TxsBuried(s: State) {
    forall x :: x in s.txs.entries ==> s.txs.entries[x].value.hash == x && TxBuried(s.chain, s.txs.entries[x].value)
  }

  ghost predicate FetchesBuried(s: State) {
    forall f :: f in s.fetches && s.fetches[f].Received? && Keepable(s.fetches[f].reply) ==>
      TxBuried(s.chain, s.fetches[f].reply)
  }

  ghost predicate TxInv(s: State) {
    TxsBuried(s) && FetchesBuried(s)
  }

  lemma AdvanceKeepsTxInv(s: State, gone: nat, blocks: seq<Content>)
    requires TxInv(s) && gone < REORG_WINDOW && gone < |s.chain| && gone <= |blocks|
    ensures TxInv(AfterAdvance(s, gone, blocks))
  {
    var s' := AfterAdvance(s, gone, blocks);
    forall e | TxBuried(s.chain, e) ensures TxBuried(s'.chain, e) {
    }
    hide TxBuried;
  }

  lemma AskKeepsTxInv(s: State, fetch: nat, hash: Hash32)
    requires TxInv(s)
    ensures TxInv(AfterAskTx(s, fetch, hash))
  {
    hide AfterGet, Hit, TxBuried;
    GetKeeps(s.txs, hash);
  }

  lemma TakeKeepsTxInv(s: State, fetch: nat, height: nat)
    requires TxInv(s) && CanTakeTx(s, fetch, height)
    ensures TxInv(AfterTakeTx(s, fetch, ReportedTx(s.chain, s.fetches[fetch].hash, height)))
  {
  }

  lemma StoreKeepsTxInv(s: State, fetch: nat, capacity: nat)
    requires TxInv(s) && IsReceived(s, fetch)
    ensures TxInv(AfterStoreTx(s, fetch, capacity))
  {
    hide AfterInsert, TxBuried;
    var reply := s.fetches[fetch].reply;
    InsertKeeps(s.txs, reply.hash, reply, capacity);
  }

  lemma StepKeepsTxInv(s: State, step: Step, s': State, world: World)
    requires TxInv(s) && Next(s, step, s', world) && world.deepest < REORG_WINDOW
    ensures TxInv(s')
  {
    hide AfterAdvance, AfterAskTx, AfterStoreTx, ReportedTx, CanTakeTx, TxBuried;
    match step {
      case Advance(gone, blocks) => AdvanceKeepsTxInv(s, gone, blocks);
      case AskTx(fetch, hash) => AskKeepsTxInv(s, fetch, hash);
      case TakeTx(fetch, height) => TakeKeepsTxInv(s, fetch, height);
      case TakePooled(fetch) =>
      case StoreTx(fetch) => StoreKeepsTxInv(s, fetch, world.txCapacity);
      case FailTx(fetch) =>
      case _ => BlockStepLeavesTxs(s, step, s', world);
    }
  }

  lemma {:induction false} RunTxInvariant(states: seq<State>, steps: seq<Step>, world: World, n: nat)
    requires IsRun(states, steps, world) && n < |states| && world.deepest < REORG_WINDOW
    ensures TxInv(states[n])
    decreases n
  {
    hide IsRun, Next;
    if n > 0 {
      hide TxInv;
      RunTxInvariant(states, steps, world, n - 1);
      RunStep(states, steps, world, n);
      StepKeepsTxInv(states[n - 1], steps[n - 1], states[n], world);
    } else {
      RunStart(states, steps, world);
    }
  }

  /** With reorgs shallower than the window, every cached transaction stays in its block. */
  lemma TxNeverWrong(states: seq<State>, steps: seq<Step>, world: World, n: nat)
    requires IsRun(states, steps, world) && n < |states| && world.deepest < REORG_WINDOW
    ensures TxSafe(states[n]) && TxFound(states[n])
  {
    RunTxInvariant(states, steps, world, n);
  }

  // ---------------------------------------------------------------- served transactions

  /** At step m the entry was exact: its block at its height, so many confirmations to the tip. */
  ghost predicate TxTrueAt(states: seq<State>, m: nat, e: TxReply) {
    && InItsBlock(e) && WasAt(states, m, e.height, e.block)
    && e.height + e.confirmations == |states[m].chain|
  }

  ghost predicate TxTrueBy(states: seq<State>, until: nat, e: TxReply) {
    e.Confirmed? ==> exists m :: 0 <= m <= until && TxTrueAt(states, m, e)
  }

  /** Every cached transaction was reported so once. */
  ghost predicate TxsRemembered(states: seq<State>, n: nat)
    requires n < |states|
  {
    forall x :: x in states[n].txs.entries ==>
      states[n].txs.entries[x].value.hash == x && TxTrueBy(states, n, states[n].txs.entries[x].value)
  }

  ghost predicate FetchTruthful(states: seq<State>, f: Fetch, n: nat) {
    match f
    case Wanted(_) => true
    case Received(e) => TxTrueBy(states, n, e)
    case Served(hash, e, finished) => finished <= n && e.hash == hash && TxTrueBy(states, finished, e)
  }

  ghost predicate FetchesTruthful(states: seq<State>, n: nat)
    requires n < |states|
  {
    && states[n].now == n && TxsRemembered(states, n)
    && forall f :: f in states[n].fetches ==> FetchTruthful(states, states[n].fetches[f], n)
  }

  lemma TxTrueLonger(states: seq<State>, until: nat, e: TxReply)
    requires TxTrueBy(states, until, e)
    ensures TxTrueBy(states, until + 1, e)
  {
  }

  lemma FetchTruthfulLater(states: seq<State>, f: Fetch, n: nat)
    requires FetchTruthful(states, f, n)
    ensures FetchTruthful(states, f, n + 1)
  {
    if f.Received? {
      TxTrueLonger(states, n, f.reply);
    }
    hide TxTrueBy;
  }

  /** The one fetch a step moves on, if any. */
  function MovedFetch(step: Step): Option<nat> {
    match step
    case AskTx(fetch, _) => Some(fetch)
    case TakeTx(fetch, _) => Some(fetch)
    case TakePooled(fetch) => Some(fetch)
    case StoreTx(fetch) => Some(fetch)
    case FailTx(fetch) => Some(fetch)
    case _ => None
  }

  lemma OtherFetchesUnmoved(s: State, step: Step, s': State, world: World, f: nat)
    requires Next(s, step, s', world) && f in s'.fetches && MovedFetch(step) != Some(f)
    ensures f in s.fetches && s'.fetches[f] == s.fetches[f]
  {
    hide AfterGet, AfterInsert, Hit;
  }

  /** A step of a transaction: what it leaves in the cache and what becomes of its own fetch. */
  lemma MovedFetchTruthful(states: seq<State>, step: Step, n: nat, world: World)
    requires n + 1 < |states| && Next(states[n], step, states[n + 1], world)
    requires FetchesTruthful(states, n)
    ensures TxsRemembered(states, n + 1)
    ensures MovedFetch(step).Some? && MovedFetch(step).value in states[n + 1].fetches ==>
              FetchTruthful(states, states[n + 1].fetches[MovedFetch(step).value], n + 1)
  {
    var s, s' := states[n], states[n + 1];
    forall e | TxTrueBy(states, n, e) ensures TxTrueBy(states, n + 1, e) {
      TxTrueLonger(states, n, e);
    }
    match step {
      case AskTx(fetch, hash) =>
        GetKeeps(s.txs, hash);
      case TakeTx(fetch, height) =>
        assert TxTrueAt(states, n, ReportedTx(s.chain, s.fetches[fetch].hash, height));
      case StoreTx(fetch) =>
        var reply := s.fetches[fetch].reply;
        assert FetchTruthful(states, s.fetches[fetch], n);
        InsertKeeps(s.txs, reply.hash, reply, world.txCapacity);
      case TakePooled(_) =>
      case FailTx(_) =>
      case _ => BlockStepLeavesTxs(s, step, s', world);
    }
    hide TxTrueBy, TxTrueAt, AfterGet, AfterInsert, Hit;
  }

  lemma StartFetches(states: seq<State>)
    requires states != [] && states[0] == Init(states[0].chain, states[0].orphans)
    ensures FetchesTruthful(states, 0)
  {
  }

  lemma StepKeepsFetches(states: seq<State>, step: Step, n: nat, world: World)
    requires n + 1 < |states| && Next(states[n], step, states[n + 1], world)
    requires FetchesTruthful(states, n)
    ensures FetchesTruthful(states, n + 1)
  {
    hide FetchTruthful, Next, TxsRemembered;
    var s, s' := states[n], states[n + 1];
    MovedFetchTruthful(states, step, n, world);
    NowAdvances(s, step, s', world);
    forall f | f in s'.fetches ensures FetchTruthful(states, s'.fetches[f], n + 1) {
      if MovedFetch(step) != Some(f) {
        OtherFetchesUnmoved(s, step, s', world, f);
        FetchTruthfulLater(states, s'.fetches[f], n);
      }
    }
  }

  lemma {:induction false} RunFetches(states: seq<State>, steps: seq<Step>, world: World, n: nat)
    requires IsRun(states, steps, world) && n < |states|
    ensures FetchesTruthful(states, n)
    decreases n
  {
    hide IsRun, Next, FetchesTruthful;
    if n > 0 {
      RunFetches(states, steps, world, n - 1);
      RunStep(states, steps, world, n);
      StepKeepsFetches(states, steps[n - 1], n - 1, world);
    } else {
      RunStart(states, steps, world);
      StartFetches(states);
    }
  }

  /**
   * Every transaction served, cache hits included, is the one asked for, and if it is served as
   * confirmed it was in its block at its height, with so many confirmations, at some step before.
   * This takes no bound on reorgs: it is what is true for good of an answer that may have aged.
   */
  lemma FetchWasTrue(states: seq<State>, steps: seq<Step>, world: World, n: nat, fetch: nat)
    requires IsRun(states, steps, world) && n < |states|
    requires fetch in states[n].fetches && states[n].fetches[fetch].Served?
    ensures var f := states[n].fetches[fetch];
            && f.finished <= n && f.reply.hash == f.hash
            && (f.reply.Confirmed? ==>
                  exists m :: 0 <= m <= f.finished && TxTrueAt(states, m, f.reply))
  {
    RunFetches(states, steps, world, n);
    assert FetchTruthful(states, states[n].fetches[fetch], n);
  }
}
