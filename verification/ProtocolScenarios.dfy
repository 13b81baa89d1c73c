/** Runs that go wrong, built for every configuration: the ledger two blocks over its capacity, a forked
    chain, and a system that stands still for ever. */
module ProtocolScenarios {
  import opened Bytes
  import opened Data
  import opened Sums
  import opened TxIds
  import opened Pow
  import opened Chain
  import opened PoolSpec
  import opened Pool
  import opened Protocol
  import opened ProtocolBuilding
  import opened ProtocolAgeing
  import opened ProtocolCapacity
  import opened ProtocolSafety
  import opened ProtocolShape
  import opened ProtocolStalls
  import opened ProtocolWakeups
  import opened Mining

  // ----- growing the ledger, then three validators at once ----------------------------------------------------------

  ghost predicate CanGrow(sys: System) {
    && ValidConfig(sys.config) && Mineable(sys.h, sys.config.perBlock)
    && sys.config.perBlock <= sys.config.poolSize
  }

  lemma OneMore(n: nat, p: nat)
    ensures (n + 1) * p == n * p + p
  {
  }

  lemma CanGrowMeans(sys: System)
    requires CanGrow(sys)
    ensures ValidConfig(sys.config) && Mineable(sys.h, sys.config.perBlock) && sys.config.perBlock <= sys.config.poolSize
  {
  }

  /** In a run with a full pool and a permit to spare the next block is cleared. */
  lemma ClearNext(sys: System, s: State, v: nat) returns (t: State)
    requires CanGrow(sys) && Reachable(sys, s) && AllLive(s.pool) && |s.pool| == sys.config.poolSize
    requires MinerAt(s, 0) && s.miners[0].Waiting? && s.permits > 0 && s.pipe == []
    requires ValidatorAt(s, v) && s.validators[v].Ready? && |s.ledger| < sys.config.maxBlocks
    ensures Reachable(sys, t) && ClearedFor(sys, t, v, Tip(Hasher(sys.h), s.ledger))
    ensures t == s.(pool := t.pool, permits := s.permits - 1, returned := t.returned,
                    validators := s.validators[v := t.validators[v]])
    ensures (t.pool, Some(t.validators[v].m.block.transactions)) == Reserve(s.pool, sys.config.perBlock)
    ensures |t.pool| == |s.pool| && CountLive(t.pool) == CountLive(s.pool) - sys.config.perBlock < CountLive(s.pool)
  {
    hide Reachable, Leads, SoundPool, CountLive, AllLive, Reserve, ClearedFor, Mineable;
    RunsKeepSound(sys, s);
    AllLiveCounts(s.pool);
    t := ClearOne(sys, s, v);
    LeadsReachable(sys, s, t);
  }

  lemma {:induction false} Grow(sys: System, n: nat, pid: nat, limit: nat) returns (s: State)
    requires CanGrow(sys) && n <= sys.config.maxBlocks && Fits(pid, limit) && (n + 1) * sys.config.poolSize <= limit
    ensures Calm(sys, s) && |s.ledger| == n && Counter(s, pid) <= (n + 1) * sys.config.poolSize
  {
    hide Calm, CanGrow, Fits, Reachable;
    CanGrowMeans(sys);
    var p := sys.config.poolSize;
    OneMore(n, p);
    if n == 0 {
      s := GetCalm(sys, pid, limit);
    } else {
      OneMore(n - 1, p);
      var g := Grow(sys, n - 1, pid, limit);
      s := GrowByOne(sys, g, pid, limit);
    }
  }

  lemma GrowByOne(sys: System, s: State, pid: nat, limit: nat) returns (t: State)
    requires CanGrow(sys) && Calm(sys, s) && |s.ledger| < sys.config.maxBlocks
    requires Fits(pid, limit) && Counter(s, pid) + sys.config.poolSize <= limit
    ensures Calm(sys, t) && |t.ledger| == |s.ledger| + 1 && Counter(t, pid) <= Counter(s, pid) + sys.config.poolSize
  {
    hide Reachable, CountLive, Reserve, Links, HashHex, Tip, Hasher, Fits, AllFit, AllLive, CanGrow, Mineable;
    var r := Refill(sys, s, pid, limit);
    CanGrowMeans(sys);
    var c := ClearNext(sys, r, 0);
    t := FinishOne(sys, c, 0);
    LeadsReachable(sys, c, t);
    assert t.validators == [Ready, Ready, Ready];
  }

  /** Three validators are past the capacity test with blocks for the same tip. */
  ghost predicate ThreeCleared(sys: System, s: State) {
    |s.validators| == 3 && forall v :: 0 <= v < 3 ==> ClearedFor(sys, s, v, Tip(Hasher(sys.h), s.ledger))
  }

  /** Such states are reached for every number of blocks below the capacity. */
  lemma ClearThree(sys: System, n: nat, pid: nat, limit: nat) returns (s: State)
    requires CanGrow(sys) && n < sys.config.maxBlocks && Fits(pid, limit) && (n + 4) * sys.config.poolSize <= limit
    ensures Reachable(sys, s) && |s.ledger| == n && ThreeCleared(sys, s)
  {
    hide Reachable, CountLive, Reserve, ClearedFor, Tip, Hasher, Fits, AllFit, AllLive, CanGrow, Mineable;
    var p := sys.config.poolSize;
    assert (n + 4) * p == (n + 1) * p + 3 * p;
    var g := Grow(sys, n, pid, limit);
    var r := Refill(sys, g, pid, limit);
    var a := ClearNext(sys, r, 0);
    var b := Refill(sys, a, pid, limit);
    var c := ClearNext(sys, b, 1);
    var d := Refill(sys, c, pid, limit);
    s := ClearNext(sys, d, 2);
    var tip := Tip(Hasher(sys.h), s.ledger);
    StillCleared(sys, a, s, 0, tip);
    StillCleared(sys, c, s, 1, tip);
  }

  lemma StillCleared(sys: System, s: State, t: State, v: nat, tip: HexHash)
    requires ClearedFor(sys, s, v, tip) && ValidatorAt(t, v) && t.validators[v] == s.validators[v]
    ensures ClearedFor(sys, t, v, tip)
  {
    hide Links, HashHex;
  }

  lemma AllThreeCleared(sys: System, s: State)
    requires ThreeCleared(sys, s)
    ensures Sum(s.validators, ClearedOne) == 3
  {
    hide Tip, Hasher, Links, HashHex;
    forall v | 0 <= v < 3 ensures s.validators[v].Cleared? {
      assert ClearedFor(sys, s, v, Tip(Hasher(sys.h), s.ledger));
    }
    SumOnes(s.validators, ClearedOne);
  }

  // ----- when the pool is too small for a block -----------------------------------------------------------------------

  ghost predicate NothingMoves(sys: System, s: State) {
    |s.pool| == sys.config.poolSize && s.ledger == [] && s.refused == [] && forall ts :: !InFlight(s, ts)
  }

  lemma ReserveNeedsRoom(pool: seq<Slot>, k: nat)
    ensures Reserve(pool, k).1.Some? ==> k <= |pool|
  {
    PickedAtMostLive(pool, k, |pool|);
    assert pool[..|pool|] == pool;
  }

  lemma SmallPoolNeverMoves(sys: System, s: State)
    requires Reachable(sys, s) && sys.config.perBlock > sys.config.poolSize
    ensures NothingMoves(sys, s)
  {
    hide Enabled, Possible, Do, NothingMoves, Init;
    forall s, step | NothingMoves(sys, s) && Enabled(sys, s, step) ensures NothingMoves(sys, Do(sys, s, step)) {
      NothingMovesStep(sys, s, step);
    }
    if ValidConfig(sys.config) {
      NothingMovesAtStart(sys);
    }
    InductiveIsInvariant(sys, s => NothingMoves(sys, s), s);
  }

  lemma RefusalsNeedFlight(sys: System, s: State, step: Step)
    requires Possible(sys, s, step) && forall ts :: !InFlight(s, ts)
    ensures Do(sys, s, step).refused == s.refused
  {
    if step.GiveBackRefused? {
      CarriedIsInFlight(s, step.v);
    }
    hide Name, InFlight, Accepts, Finds, Fails, Insert, Reserve, Check, AgeAll, ReturnAll, ReturnFirst, PoolSpec.Remove,
         Links, Tip, Hasher, PercentFull, Revived, NewTx, RewardSum, NewBlock;
  }

  lemma NothingMovesStep(sys: System, s: State, step: Step)
    requires NothingMoves(sys, s) && Possible(sys, s, step) && sys.config.perBlock > sys.config.poolSize
    ensures NothingMoves(sys, Do(sys, s, step))
  {
    hide InFlight, Reserve, Do;
    PoolSize(sys, s, step);
    AppendOnlyLedger(sys, s, step);
    ReserveNeedsRoom(s.pool, sys.config.perBlock);
    if step.Append? {
      AppendedInFlight(sys, s, step);
    }
    RefusalsNeedFlight(sys, s, step);
    hide Enabled;
    forall ts ensures !InFlight(Do(sys, s, step), ts) {
      if InFlight(Do(sys, s, step), ts) {
        InFlightStep(sys, s, step, ts);
      }
    }
  }

  lemma NothingMovesAtStart(sys: System)
    ensures NothingMoves(sys, Init(sys))
  {
  }

  // ----- the bounds are reached ------------------------------------------------------------------------------------------

  /** The overrun by two blocks happens: under every hash that can be mined, for every configuration and as
      long as one generator's identifiers last, some run reaches it if and only if a block fits into the
      pool at all. */
  lemma OverrunAttainedIff(sys: System, pid: nat)
    requires ValidConfig(sys.config) && Mineable(sys.h, sys.config.perBlock)
    requires Fits(pid, (sys.config.maxBlocks + 3) * sys.config.poolSize)
    ensures (exists s :: Reachable(sys, s) && |s.ledger| == sys.config.maxBlocks + 2)
       <==> sys.config.perBlock <= sys.config.poolSize
  {
    hide Reachable, Fits, Runs, After, Links, Tip, Hasher, Mineable, InFlight;
    if sys.config.perBlock <= sys.config.poolSize {
      var s := ClearThree(sys, sys.config.maxBlocks - 1, pid, (sys.config.maxBlocks + 3) * sys.config.poolSize);
      var steps := EveryoneAppends(sys, s);
      AllThreeCleared(sys, s);
      ReachableAfter(sys, s, steps);
      assert |After(sys, s, steps).ledger| == sys.config.maxBlocks + 2;
    } else {
      forall s | Reachable(sys, s) ensures s.ledger == [] {
        SmallPoolNeverMoves(sys, s);
      }
    }
  }

  /** Forks happen as well, under the same condition: some run leaves a ledger that is not a chain. */
  lemma ForkAttainedIff(sys: System, pid: nat)
    requires ValidConfig(sys.config) && Mineable(sys.h, sys.config.perBlock)
    requires Fits(pid, 4 * sys.config.poolSize)
    ensures (exists s :: Reachable(sys, s) && !IsChain(Hasher(sys.h), s.ledger))
       <==> sys.config.perBlock <= sys.config.poolSize
  {
    hide Reachable, Fits, IsChain, Links, Tip, Hasher, HashHex, Mineable, InFlight;
    if sys.config.perBlock <= sys.config.poolSize {
      var s := ClearThree(sys, 0, pid, 4 * sys.config.poolSize);
      FirstTip(sys.h);
      assert ClearedFor(sys, s, 0, INITIAL_HASH) && ClearedFor(sys, s, 1, INITIAL_HASH);
      var first := s.validators[0].m.block;
      OtherTip(first, INITIAL_HASH, HashHex(sys.h, first));
      SameTipForks(sys, s, 0, 1);
      var t := Do(sys, s, Append(0));
      ReachableStep(sys, s, Append(0));
      ReachableStep(sys, t, Append(1));
      assert !IsChain(Hasher(sys.h), Do(sys, t, Append(1)).ledger);
    } else {
      forall s | Reachable(sys, s) ensures IsChain(Hasher(sys.h), s.ledger) {
        SmallPoolNeverMoves(sys, s);
        EmptyIsChain(Hasher(sys.h));
      }
    }
  }

  lemma FirstTip(h: HashFn)
    ensures Tip(Hasher(h), []) == INITIAL_HASH
  {
  }

  lemma OtherTip(b: Block, tip: HexHash, other: HexHash)
    requires Links(b, tip) && tip != other
    ensures !Links(b, other)
  {
  }

  lemma EmptyIsChain(hash: BlockHash)
    ensures IsChain(hash, [])
  {
  }

  // ----- standing still --------------------------------------------------------------------------------------------------

  ghost predicate Draining(s: State) {
    && AllLive(s.pool) && s.pipe == [] && s.unposted == 0
    && |s.miners| > 0 && (forall i :: 0 <= i < |s.miners| ==> s.miners[i].Waiting?)
    && (forall v :: 0 <= v < |s.validators| ==> s.validators[v].Ready?)
  }

  /** The first miner spends a permit for nothing: too few transactions, or a pipe it cannot write to. */
  lemma WasteOne(sys: System, s: State) returns (t: State)
    requires Reachable(sys, s) && MinerAt(s, 0) && s.miners[0].Waiting? && s.permits > 0
    ensures Reachable(sys, t) && t == s.(permits := s.permits - 1, returned := t.returned)
  {
    hide Name, Reachable, CountLive, Picked, Reserve, ReturnAll, Fails, NewBlock, Tip, Hasher, Runs, After;
    var k := sys.config.perBlock;
    SelectionInRuns(sys, s);
    var u := Do(sys, s, Wake(0));
    ReachableStep(sys, s, Wake(0));
    var turn := if Reserve(s.pool, k).1.Some? then GaveBack else Idle;
    var steps := TurnIsRun(sys, u, 0, 0, 0, false, turn, s.pool);
    ReachableAfter(sys, u, steps);
    t := After(sys, u, steps);
    assert s.miners[0 := Woken][0 := Waiting] == s.miners;
    assert s.pipe + [] == s.pipe;
  }

  lemma {:induction false} Drain(sys: System, s: State) returns (t: State)
    requires Reachable(sys, s) && Draining(s)
    ensures Reachable(sys, t) && Stalled(t)
    decreases s.permits
  {
    hide Reachable, AllLive;
    if s.permits == 0 {
      SumZero(s.miners, TokenOne);
      t := s;
    } else {
      var u := WasteOne(sys, s);
      t := Drain(sys, u);
    }
  }

  /** Stalls happen: every system, with any hash and any configuration, can reach a state in which its
      pool is full of waiting transactions and nothing will ever move again. */
  lemma StallReachable(sys: System, pid: nat)
    requires ValidConfig(sys.config) && Fits(pid, sys.config.poolSize)
    ensures exists s :: Reachable(sys, s) && Stalled(s) && CountLive(s.pool) == |s.pool| == sys.config.poolSize
  {
    hide Reachable, Fits, AllLive, CountLive;
    StartIsReachable(sys);
    NothingLiveAtStart(sys);
    var r := Refill(sys, Init(sys), pid, sys.config.poolSize);
    var t := Drain(sys, r);
    AllLiveCounts(t.pool);
    PoolSizeAlways(sys, t);
  }

  lemma PoolSizeAlways(sys: System, s: State)
    requires Reachable(sys, s)
    ensures |s.pool| == sys.config.poolSize
  {
    hide Enabled, Possible, Do;
    forall s: State, step | |s.pool| == sys.config.poolSize && Enabled(sys, s, step)
      ensures |Do(sys, s, step).pool| == sys.config.poolSize
    {
      PoolSize(sys, s, step);
    }
    InductiveIsInvariant(sys, (s: State) => |s.pool| == sys.config.poolSize, s);
  }
}
