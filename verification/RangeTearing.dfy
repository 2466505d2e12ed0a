/**
 * A range of blocks read from a chain that moves: the headers in one call, the bodies by height in
 * calls of their own after it.
 *
 * Reading headers changes nothing, so a range is something seen in a run: the chain at the state
 * where the headers were taken, and the answers its block lookups got.
 */
module RangeTearing {
  import opened Words
  import opened BlockIds
  import opened Caching
  import opened ReorgMachine
  import opened ReorgSafety
  import opened ReorgLimits

  /** The range's lookups: the call that asked for the body at each height that holds anything. */
  datatype Range = Range(headersAt: nat, returned: nat, end: nat, bodies: map<U64, nat>)

  /** All of it happened in the run: headers up to `end`, then the lookups, each answered by `returned`. */
  ghost predicate Happened(range: Range, states: seq<State>) {
    && range.headersAt <= range.returned < |states|
    && range.end < |states[range.headersAt].chain|
    && forall h :: h in range.bodies ==> h <= range.end && Looked(range, states, h)
  }

  ghost predicate Looked(range: Range, states: seq<State>, h: U64)
    requires h in range.bodies && range.returned < |states|
  {
    var calls := states[range.returned].calls;
    var call := range.bodies[h];
    && call in calls && calls[call].Answered? && calls[call].id == Height(h)
    && range.headersAt <= calls[call].started && calls[call].finished <= range.returned
  }

  /** What is listed at a height: a header and its coinbase from one call, a body from another. */
  ghost function HeaderOf(range: Range, states: seq<State>, h: U64): Content
    requires Happened(range, states) && h in range.bodies
  {
    states[range.headersAt].chain[h]
  }

  ghost function BodyOf(range: Range, states: seq<State>, h: U64): Content
    requires Happened(range, states) && h in range.bodies
  {
    states[range.returned].calls[range.bodies[h]].reply.block
  }

  /** Header and body are of the same block. */
  ghost predicate Whole(range: Range, states: seq<State>, h: U64)
    requires Happened(range, states) && h in range.bodies
  {
    HeaderOf(range, states, h) == BodyOf(range, states, h)
  }

  // ---------------------------------------------------------------- whole

  /** No reorg between the two states takes away the block at this height. */
  ghost predicate Unreached(states: seq<State>, steps: seq<Step>, from: nat, to: nat, h: nat)
  {
    && to <= |steps| <= |states|
    && forall i :: from <= i < to && steps[i].Advance? && steps[i].gone > 0 ==> h < |states[i].chain| - steps[i].gone
  }

  lemma StepLeavesBlock(s: State, step: Step, s': State, world: World, h: nat)
    requires Next(s, step, s', world) && h < |s.chain|
    requires step.Advance? && step.gone > 0 ==> h < |s.chain| - step.gone
    ensures h < |s'.chain| && s'.chain[h] == s.chain[h]
  {
    hide AfterGet, AfterInsert, Hit;
  }

  lemma UnreachedSooner(states: seq<State>, steps: seq<Step>, from: nat, m: nat, h: nat)
    requires from < m && Unreached(states, steps, from, m, h)
    ensures Unreached(states, steps, from, m - 1, h)
    ensures m <= |steps| <= |states|
    ensures steps[m - 1].Advance? && steps[m - 1].gone > 0 ==> h < |states[m - 1].chain| - steps[m - 1].gone
  {
  }

  lemma {:induction false} BlockStays(states: seq<State>, steps: seq<Step>, world: World, from: nat, m: nat, h: nat)
    requires IsRun(states, steps, world) && from <= m < |states| && h < |states[from].chain|
    requires Unreached(states, steps, from, m, h)
    ensures h < |states[m].chain| && states[m].chain[h] == states[from].chain[h]
    decreases m
  {
    hide IsRun, Next;
    if from < m {
      UnreachedSooner(states, steps, from, m, h);
      hide Unreached;
      BlockStays(states, steps, world, from, m - 1, h);
      RunStep(states, steps, world, m);
      StepLeavesBlock(states[m - 1], steps[m - 1], states[m], world, h);
    }
  }

  /**
   * Each block listed is whole if no reorg reaches its height between the headers and the end of the
   * call, however the chain grows, the caches turn over and other reorgs go on above it.
   */
  lemma WholeIfUnreached(states: seq<State>, steps: seq<Step>, world: World, range: Range, h: U64)
    requires IsRun(states, steps, world)
    requires world.deepest <= REORG_WINDOW && !world.answersOrphans
    requires Happened(range, states) && h in range.bodies
    requires Unreached(states, steps, range.headersAt, range.returned, h)
    ensures Whole(range, states, h)
  {
    hide IsRun, WasAt;
    assert Looked(range, states, h);
    var call := range.bodies[h];
    AnswerWasTrue(states, steps, world, range.returned, call);
    var c := states[range.returned].calls[call];
    var m :| c.started <= m <= c.finished && WasAt(states, m, h, c.reply.block);
    BlockStays(states, steps, world, range.headersAt, m, h);
    assert states[m].chain[h] == c.reply.block by { WasThere(states, m, h, c.reply.block); }
  }

  lemma WasThere(states: seq<State>, m: nat, h: nat, block: Content)
    requires WasAt(states, m, h, block)
    ensures m < |states| && h < |states[m].chain| && states[m].chain[h] == block
  {
  }

  // ---------------------------------------------------------------- torn

  /**
   * Two blocks, the headers taken, and a reorg of the top one before its body is asked for: what is
   * listed has the header and coinbase of the old block and the body of the new.
   */
  lemma OneBlockReorgTears(world: World)
    returns (states: seq<State>, steps: seq<Step>, range: Range)
    requires world.deepest >= 1
    ensures IsRun(states, steps, world)
    ensures Happened(range, states) && 1 in range.bodies && !Whole(range, states, 1)
  {
    var s := Init(MainChain(2), {});
    StartIsReal(2, {});
    BranchTakesOver(s, world);
    ChainAndBranchDiffer(1);
    hide MainChain, Branch, Marked, Real, AfterAdvance;
    var s1 := AfterAdvance(s, 1, Branch(1));
    RunOfOne(s, world);
    hide IsRun, Next;
    RunExtends([s], [], Advance(1, Branch(1)), s1, world);
    states, steps := LookedUp([s] + [s1], [] + [Advance(1, Branch(1))], world);
    range := Range(0, 5, 1, map[1 := 0]);
    assert Looked(range, states, 1);
  }

  lemma RunOfOne(s: State, world: World)
    requires s == Init(s.chain, s.orphans) && Real(s)
    ensures IsRun([s], [], world)
  {
    hide Init, Real;
  }

  /** The run goes on with a lookup of block 1, answered from the chain as it is now. */
  lemma LookedUp(states: seq<State>, steps: seq<Step>, world: World)
    returns (states': seq<State>, steps': seq<Step>)
    requires IsRun(states, steps, world) && |states| == 2
    requires var s := states[1]; |s.chain| == 2 && s.byHeight == Snapshot(map[], 0, 0, 0) && s.calls == map[]
    ensures IsRun(states', steps', world) && |states'| == 6
    ensures states'[0] == states[0] && states'[1] == states[1]
    ensures states'[5].calls.Keys == {0} && states'[5].calls[0].Answered?
    ensures var c := states'[5].calls[0];
            && c.id == Height(1) && c.started == states[1].now && c.finished == states[1].now + 4
            && c.reply.block == states[1].chain[1]
  {
    var s := states[1];
    var s2 := AfterAsk(s, 0, Height(1));
    var s3 := AfterTake(s2, 0, Reported(s2.chain, 1));
    var s4 := AfterStoreByHash(s3, 0, world.hashCapacity);
    var s5 := AfterStoreByHeight(s4, 0, world.heightCapacity);
    LookupAnswers(s, world);
    LastIsReal(states, steps, world);
    hide IsRun, Next, Real, AfterAsk, AfterTake, AfterStoreByHash, AfterStoreByHeight, Reported;
    RealStays(s, s2);
    RealStays(s, s3);
    RealStays(s, s4);
    RealStays(s, s5);
    states', steps' := states, steps;
    RunExtends(states', steps', Ask(0, Height(1)), s2, world);
    states', steps' := states' + [s2], steps' + [Ask(0, Height(1))];
    RunExtends(states', steps', Take(0, 1), s3, world);
    states', steps' := states' + [s3], steps' + [Take(0, 1)];
    RunExtends(states', steps', StoreByHash(0), s4, world);
    states', steps' := states' + [s4], steps' + [StoreByHash(0)];
    RunExtends(states', steps', StoreByHeight(0), s5, world);
    states', steps' := states' + [s5], steps' + [StoreByHeight(0)];
  }

  lemma LastIsReal(states: seq<State>, steps: seq<Step>, world: World)
    requires IsRun(states, steps, world)
    ensures states != [] && Real(states[|states| - 1])
  {
    hide Next, Real, Init;
  }

  /** A lookup of block 1 from empty caches, on a chain too short to keep it by height. */
  lemma LookupAnswers(s: State, world: World)
    requires |s.chain| == 2 && s.byHeight == Snapshot(map[], 0, 0, 0) && s.calls == map[]
    ensures var s2 := AfterAsk(s, 0, Height(1));
            var s3 := AfterTake(s2, 0, Reported(s2.chain, 1));
            var s4 := AfterStoreByHash(s3, 0, world.hashCapacity);
            var s5 := AfterStoreByHeight(s4, 0, world.heightCapacity);
            && Next(s, Ask(0, Height(1)), s2, world) && Next(s2, Take(0, 1), s3, world)
            && Next(s3, StoreByHash(0), s4, world) && Next(s4, StoreByHeight(0), s5, world)
            && s2.chain == s3.chain == s4.chain == s5.chain == s.chain
            && s2.orphans == s3.orphans == s4.orphans == s5.orphans == s.orphans
            && s5.calls == map[0 := Answered(Height(1), s.now, Reported(s.chain, 1), s.now + 4)]
  {
    hide AfterInsert;
  }

  ghost predicate AlwaysWhole(world: World) {
    forall states, steps, range, h :: IsRun(states, steps, world) && Happened(range, states) && h in range.bodies ==>
      Whole(range, states, h)
  }

  /** A listed range can be torn exactly when there are reorgs at all, even of one block. */
  lemma WholeExactlyWithoutReorgs(world: World)
    requires !world.answersOrphans
    ensures AlwaysWhole(world) <==> world.deepest == 0
  {
    if world.deepest >= 1 {
      var states, steps, range := OneBlockReorgTears(world);
      hide IsRun, Happened, Whole;
      assert !AlwaysWhole(world);
    } else {
      forall states, steps, range, h | IsRun(states, steps, world) && Happened(range, states) && h in range.bodies
        ensures Whole(range, states, h)
      {
        NothingReached(states, steps, world, range.headersAt, range.returned, h);
        WholeIfUnreached(states, steps, world, range, h);
      }
    }
  }

  lemma NothingReached(states: seq<State>, steps: seq<Step>, world: World, from: nat, to: nat, h: nat)
    requires IsRun(states, steps, world) && from <= to < |states| && world.deepest == 0
    ensures Unreached(states, steps, from, to, h)
  {
    RunLength(states, steps, world);
    hide IsRun;
    forall i | from <= i < to ensures steps[i].Advance? ==> steps[i].gone == 0 {
      RunStep(states, steps, world, i + 1);
    }
  }

  lemma RunLength(states: seq<State>, steps: seq<Step>, world: World)
    requires IsRun(states, steps, world)
    ensures |states| == |steps| + 1
  {
    hide Next, Real, Init;
  }
}
