/**
 * Block and transaction lookups against a daemon whose chain moves under them, as a state machine.
 *
 * A call looks in the cache, waits for the daemon, and stores what it got, as separate steps; in
 * between, the chain grows and reorganises, and other calls do the same.
 */
module ReorgMachine {
  import opened Words
  import opened BlockIds
  import opened Caching

  /** What of a block never changes. */
  datatype Content = Content(hash: Hash32, txs: set<Hash32>)

  /** A block as the daemon reports it at one moment. */
  datatype Reply = Reply(block: Content, height: nat, depth: nat)

  datatype Call =
    | Waiting(id: BlockId, started: nat)
    | Taken(id: BlockId, started: nat, reply: Reply, takenAt: nat)
    | Hashed(id: BlockId, started: nat, reply: Reply, takenAt: nat)
    | Answered(id: BlockId, started: nat, reply: Reply, finished: nat)

  /**
   * A transaction as the daemon reports it at one moment.  An entry on the wire has the height and
   * not the block; the block is kept here to say what the height stood for.
   */
  datatype TxReply = Pooled(hash: Hash32) | Confirmed(hash: Hash32, height: nat, confirmations: nat, block: Content)

  /** One transaction of a batch: asked for, received, handed on. */
  datatype Fetch =
    | Wanted(hash: Hash32)
    | Received(reply: TxReply)
    | Served(hash: Hash32, reply: TxReply, finished: nat)

  datatype State = State(
    now: nat,
    chain: seq<Content>,
    /** Blocks the daemon holds off its main chain, with their heights. */
    orphans: set<(Content, nat)>,
    byHash: Snapshot<Hash32, Reply>,
    byHeight: Snapshot<nat, Reply>,
    txs: Snapshot<Hash32, TxReply>,
    calls: map<nat, Call>,
    fetches: map<nat, Fetch>)

  /** The bounds the machine runs under: cache sizes, how deep reorgs go, whether orphans are answered. */
  datatype World =
    World(hashCapacity: nat, heightCapacity: nat, txCapacity: nat, deepest: nat, answersOrphans: bool)

  datatype Step =
    /** The top `gone` blocks give way to at least as many others; with gone = 0 the chain just grows. */
    | Advance(gone: nat, blocks: seq<Content>)
    | Ask(call: nat, id: BlockId)
    | Take(call: nat, height: nat)
    | TakeOrphan(call: nat, block: Content, height: nat)
    | StoreByHash(call: nat)
    | StoreByHeight(call: nat)
    /** The daemon's call failed, and so does this one. */
    | Fail(call: nat)
    | AskTx(fetch: nat, hash: Hash32)
    | TakeTx(fetch: nat, height: nat)
    | TakePooled(fetch: nat)
    | StoreTx(fetch: nat)
    | FailTx(fetch: nat)

  function Init(chain: seq<Content>, orphans: set<(Content, nat)>): State {
    State(0, chain, orphans, Snapshot(map[], 0, 0, 0), Snapshot(map[], 0, 0, 0), Snapshot(map[], 0, 0, 0), map[], map[])
  }

  // ---------------------------------------------------------------- chains a daemon can have

  /** Blocks on a chain differ, and no transaction is in two of them. */
  ghost predicate Linked(chain: seq<Content>) {
    && chain != []
    && (forall i, j :: 0 <= i < j < |chain| ==> chain[i].hash != chain[j].hash)
    && (forall i, j :: 0 <= i < j < |chain| ==> chain[i].txs !! chain[j].txs)
  }

  /** A hash names one block, at one height above genesis, on the chain or off it. */
  ghost predicate OrphansApart(chain: seq<Content>, orphans: set<(Content, nat)>) {
    && (forall o :: o in orphans ==> o.1 > 0)
    && (forall o, p :: o in orphans && p in orphans && o.0.hash == p.0.hash ==> o == p)
    && (forall o, i :: o in orphans && 0 <= i < |chain| && chain[i].hash == o.0.hash ==> o == (chain[i], i))
  }

  ghost predicate Real(s: State) {
    Linked(s.chain) && OrphansApart(s.chain, s.orphans)
  }

  // ---------------------------------------------------------------- the chain moves

  ghost predicate CanAdvance(s: State, gone: nat, blocks: seq<Content>, world: World) {
    gone <= world.deepest && gone < |s.chain| && |blocks| >= gone
  }

  /** Genesis is never replaced. */
  function AfterAdvance(s: State, gone: nat, blocks: seq<Content>): State
    requires gone < |s.chain|
  {
    var keep := |s.chain| - gone;
    s.(now := s.now + 1, chain := s.chain[..keep] + blocks,
       orphans := s.orphans + set h | keep <= h < |s.chain| :: (s.chain[h], h))
  }

  // ---------------------------------------------------------------- looking up a block

  /** What the daemon says of the block at a height of its chain. */
  function Reported(chain: seq<Content>, height: nat): Reply
    requires height < |chain|
  {
    Reply(chain[height], height, |chain| - height - 1)
  }

  /** A hit is the answer; a miss waits for the daemon. */
  function AfterAsk(s: State, call: nat, id: BlockId): State {
    match id
    case Height(h) =>
      var hit := Hit(s.byHeight, h, 0, None);
      var next := if hit.Some? then Answered(id, s.now, hit.value, s.now + 1) else Waiting(id, s.now);
      s.(now := s.now + 1, byHeight := AfterGet(s.byHeight, h, 0, None), calls := s.calls[call := next])
    case ByHash(x) =>
      var hit := Hit(s.byHash, x, 0, None);
      var next := if hit.Some? then Answered(id, s.now, hit.value, s.now + 1) else Waiting(id, s.now);
      s.(now := s.now + 1, byHash := AfterGet(s.byHash, x, 0, None), calls := s.calls[call := next])
  }

  ghost predicate IsWaiting(s: State, call: nat) {
    call in s.calls && s.calls[call].Waiting?
  }

  /** The daemon answers from its main chain. */
  ghost predicate CanTake(s: State, call: nat, height: nat) {
    && IsWaiting(s, call) && height < |s.chain|
    && match s.calls[call].id
       case Height(h) => h == height
       case ByHash(x) => s.chain[height].hash == x
  }

  function AfterTake(s: State, call: nat, reply: Reply): State
    requires call in s.calls
  {
    var c := s.calls[call];
    s.(now := s.now + 1, calls := s.calls[call := Taken(c.id, c.started, reply, s.now)])
  }

  /** The daemon answers a hash from off its main chain: `orphan_status` is set, and nobody looks. */
  ghost predicate CanTakeOrphan(s: State, call: nat, block: Content, height: nat, world: World) {
    && world.answersOrphans
    && IsWaiting(s, call) && s.calls[call].id == ByHash(block.hash)
    && (block, height) in s.orphans && height < |s.chain| && s.chain[height] != block
  }

  ghost predicate IsTaken(s: State, call: nat) {
    call in s.calls && s.calls[call].Taken?
  }

  function AfterStoreByHash(s: State, call: nat, capacity: nat): State
    requires call in s.calls && s.calls[call].Taken?
  {
    var c := s.calls[call];
    s.(now := s.now + 1,
       byHash := AfterInsert(s.byHash, c.reply.block.hash, c.reply, 0, capacity),
       calls := s.calls[call := Hashed(c.id, c.started, c.reply, c.takenAt)])
  }

  /** Only what is buried past the window is kept under its height; either way the call returns. */
  function AfterStoreByHeight(s: State, call: nat, capacity: nat): State
    requires call in s.calls && s.calls[call].Hashed?
  {
    var c := s.calls[call];
    var byHeight :=
      if SafeToCacheByHeight(c.reply.depth) then AfterInsert(s.byHeight, c.reply.height, c.reply, 0, capacity)
      else s.byHeight;
    s.(now := s.now + 1, byHeight := byHeight,
       calls := s.calls[call := Answered(c.id, c.started, c.reply, s.now + 1)])
  }

  // ---------------------------------------------------------------- fetching a transaction

  function AfterAskTx(s: State, fetch: nat, hash: Hash32): State {
    var hit := Hit(s.txs, hash, 0, None);
    var next := if hit.Some? then Served(hash, hit.value, s.now + 1) else Wanted(hash);
    s.(now := s.now + 1, txs := AfterGet(s.txs, hash, 0, None), fetches := s.fetches[fetch := next])
  }

  ghost predicate IsWanted(s: State, fetch: nat) {
    fetch in s.fetches && s.fetches[fetch].Wanted?
  }

  /** The daemon has it in the block at this height: the tip has one confirmation. */
  ghost predicate CanTakeTx(s: State, fetch: nat, height: nat) {
    IsWanted(s, fetch) && height < |s.chain| && s.fetches[fetch].hash in s.chain[height].txs
  }

  function ReportedTx(chain: seq<Content>, hash: Hash32, height: nat): TxReply
    requires height < |chain|
  {
    Confirmed(hash, height, |chain| - height, chain[height])
  }

  function AfterTakeTx(s: State, fetch: nat, reply: TxReply): State {
    s.(now := s.now + 1, fetches := s.fetches[fetch := Received(reply)])
  }

  ghost predicate IsReceived(s: State, fetch: nat) {
    fetch in s.fetches && s.fetches[fetch].Received?
  }

  /** `!entry.in_pool && entry.confirmations >= REORG_WINDOW`. */
  predicate Keepable(reply: TxReply) {
    reply.Confirmed? && reply.confirmations >= REORG_WINDOW
  }

  function AfterStoreTx(s: State, fetch: nat, capacity: nat): State
    requires fetch in s.fetches && s.fetches[fetch].Received?
  {
    var reply := s.fetches[fetch].reply;
    var txs := if Keepable(reply) then AfterInsert(s.txs, reply.hash, reply, 0, capacity) else s.txs;
    s.(now := s.now + 1, txs := txs, fetches := s.fetches[fetch := Served(reply.hash, reply, s.now + 1)])
  }

  // ---------------------------------------------------------------- runs

  ghost predicate Next(s: State, step: Step, s': State, world: World) {
    match step
    case Advance(gone, blocks) => CanAdvance(s, gone, blocks, world) && s' == AfterAdvance(s, gone, blocks)
    case Ask(call, id) => call !in s.calls && s' == AfterAsk(s, call, id)
    case Take(call, height) => CanTake(s, call, height) && s' == AfterTake(s, call, Reported(s.chain, height))
    case TakeOrphan(call, block, height) =>
      CanTakeOrphan(s, call, block, height, world)
      && s' == AfterTake(s, call, Reply(block, height, |s.chain| - height - 1))
    case StoreByHash(call) => IsTaken(s, call) && s' == AfterStoreByHash(s, call, world.hashCapacity)
    case StoreByHeight(call) =>
      call in s.calls && s.calls[call].Hashed? && s' == AfterStoreByHeight(s, call, world.heightCapacity)
    case Fail(call) => IsWaiting(s, call) && s' == s.(now := s.now + 1, calls := s.calls - {call})
    case AskTx(fetch, hash) => fetch !in s.fetches && s' == AfterAskTx(s, fetch, hash)
    case TakeTx(fetch, height) =>
      CanTakeTx(s, fetch, height)
      && s' == AfterTakeTx(s, fetch, ReportedTx(s.chain, s.fetches[fetch].hash, height))
    case TakePooled(fetch) =>
      IsWanted(s, fetch) && s' == AfterTakeTx(s, fetch, Pooled(s.fetches[fetch].hash))
    case StoreTx(fetch) => IsReceived(s, fetch) && s' == AfterStoreTx(s, fetch, world.txCapacity)
    case FailTx(fetch) => IsWanted(s, fetch) && s' == s.(now := s.now + 1, fetches := s.fetches - {fetch})
  }

  /**
   * A run: states from empty caches on, each a step from the one before, over chains and orphans
   * that blocks with hashes of their own can make up.
   */
  ghost predicate IsRun(states: seq<State>, steps: seq<Step>, world: World) {
    && |states| == |steps| + 1
    && states[0] == Init(states[0].chain, states[0].orphans)
    && (forall i :: 0 <= i < |states| ==> Real(states[i]))
    && (forall i :: 0 <= i < |steps| ==> Next(states[i], steps[i], states[i + 1], world))
  }

  lemma RunStep(states: seq<State>, steps: seq<Step>, world: World, n: nat)
    requires IsRun(states, steps, world) && 0 < n < |states|
    ensures n <= |steps| && Next(states[n - 1], steps[n - 1], states[n], world)
  {
    hide Next, Real, Init;
    var i := n - 1;
    assert Next(states[i], steps[i], states[i + 1], world);
  }

  lemma RunStart(states: seq<State>, steps: seq<Step>, world: World)
    requires IsRun(states, steps, world)
    ensures |states| > 0 && states[0] == Init(states[0].chain, states[0].orphans)
  {
    hide Next, Real;
  }

  lemma RunExtends(states: seq<State>, steps: seq<Step>, step: Step, s: State, world: World)
    requires IsRun(states, steps, world) && Next(states[|states| - 1], step, s, world) && Real(s)
    ensures IsRun(states + [s], steps + [step], world)
  {
    hide Next, Init, Real;
    var all, taken := states + [s], steps + [step];
    forall i | 0 <= i < |taken| ensures Next(all[i], taken[i], all[i + 1], world) {
      if i == |steps| {
        assert all[i] == states[|states| - 1] && all[i + 1] == s;
      } else {
        assert all[i] == states[i] && all[i + 1] == states[i + 1] && taken[i] == steps[i];
      }
    }
  }

  lemma NowAdvances(s: State, step: Step, s': State, world: World)
    requires Next(s, step, s', world)
    ensures s'.now == s.now + 1
  {
    hide AfterGet, AfterInsert, Hit;
  }
}
