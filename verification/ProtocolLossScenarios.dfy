/** Runs in which transactions are lost, one for each cause, and in which miners are credited for blocks
    that are in no ledger; and exactly which configurations have them. */
module ProtocolLossScenarios {
  import opened Bytes
  import opened Data
  import opened Sums
  import opened TxIds
  import opened Pow
  import opened Chain
  import opened PoolSpec
  import opened Statistics
  import opened Protocol
  import opened ProtocolCustody
  import opened ProtocolAgeing
  import opened ProtocolBuilding
  import opened ProtocolSafety
  import opened ProtocolRewards
  import opened ProtocolStalls
  import opened ProtocolLoss
  import opened ProtocolFates
  import opened ProtocolScenarios
  import opened Validating

  /** Some run leads to `s`, and there the step loses a transaction. */
  ghost predicate LosesHere(sys: System, s: State, step: Step, name: Bytes) {
    Reachable(sys, s) && Enabled(sys, s, step) && !Lost(s, name) && Lost(Do(sys, s, step), name)
  }

  lemma FlyingIsLost(sys: System, s: State, step: Step, ts: seq<Transaction>, i: nat)
    requires Reachable(sys, s) && Enabled(sys, s, step) && InFlight(s, ts) && i < |ts|
    requires Loses(sys, s, step, Name(ts[i]))
    ensures LosesHere(sys, s, step, Name(ts[i]))
  {
    hide Name, Reachable, Enabled, Possible, Do, Loses, InFlight, Committed;
    assert Name(ts[i]) in Names(ts);
    LostByStepIff(sys, s, step, Name(ts[i]));
  }

  /** When every slot is live, none shows a transaction that is on its way. */
  lemma FullPoolHides(sys: System, s: State, ts: seq<Transaction>, i: nat)
    requires Reachable(sys, s) && AllLive(s.pool) && InFlight(s, ts) && i < |ts|
    ensures !HasSlot(s.pool, Name(ts[i]))
  {
    hide Name, Reachable, InFlight, AllNamed, DistinctNames;
    InFlightIsReserved(sys, s, ts);
  }

  // ----- a refused previous hash -------------------------------------------------------------------------------

  /** In a run with a full pool and a permit to spare the next block is sent. */
  lemma SendNext(sys: System, s: State) returns (t: State, b: Block)
    requires CanGrow(sys) && Reachable(sys, s) && AllLive(s.pool) && |s.pool| == sys.config.poolSize
    requires MinerAt(s, 0) && s.miners[0].Waiting? && s.permits > 0 && s.pipe == []
    ensures Reachable(sys, t)
    ensures t == s.(pool := t.pool, permits := s.permits - 1, pipe := [Message(1, b)], returned := t.returned)
    ensures |t.pool| == |s.pool| && CountLive(t.pool) == CountLive(s.pool) - sys.config.perBlock
    ensures |b.transactions| == sys.config.perBlock > 0 && AllFound(t.pool, b.transactions)
    ensures Accepts(sys.h, b) && Links(b, Tip(Hasher(sys.h), s.ledger)) && HashHex(sys.h, b) != INITIAL_HASH
  {
    hide Reachable, Leads, SoundPool, CountLive, AllLive, AllFound, Accepts, Links, Tip, Hasher, HashHex, Reserve, Mineable;
    RunsKeepSound(sys, s);
    AllLiveCounts(s.pool);
    t, b := SendOne(sys, s);
    LeadsReachable(sys, s, t);
  }

  /** A second block is sent while the first, for the same tip, is about to be appended. */
  lemma LinkLoss(sys: System, pid: nat) returns (s: State, name: Bytes)
    requires CanGrow(sys) && Fits(pid, 4 * sys.config.poolSize)
    ensures LosesHere(sys, s, CheckLink(0), name)
  {
    hide Name, Reachable, CountLive, Fits, AllFit, AllLive, Accepts, Hasher, Tip, Links, AllFound, InFlight,
         Mineable, HashHex, CString, LosesHere;
    var limit := 4 * sys.config.poolSize;
    var g := GetCalm(sys, pid, limit);
    var c := ClearNext(sys, g, 0);
    var first := c.validators[0].m.block;
    var d := Refill(sys, c, pid, limit);
    var u, b := SendNext(sys, d);
    var f := FinishOne(sys, u, 0);
    LeadsReachable(sys, u, f);
    assert f.ledger == [first];
    FirstTip(sys.h);
    TipOfOne(sys.h, first);
    OtherTip(b, INITIAL_HASH, HashHex(sys.h, first));
    s, name := StaleIsLost(sys, f, Message(1, b));
  }

  lemma StaleIsLost(sys: System, s: State, m: Message) returns (t: State, name: Bytes)
    requires Reachable(sys, s) && s.pipe == [m] && ValidatorAt(s, 0) && s.validators[0].Ready?
    requires 0 < |m.block.transactions| <= sys.config.perBlock && !Links(m.block, Tip(Hasher(sys.h), s.ledger))
    ensures LosesHere(sys, t, CheckLink(0), name)
  {
    hide Name, Reachable, Accepts, Links, Tip, Hasher, InFlight, Lost;
    t := Do(sys, s, Receive(0));
    ReachableStep(sys, s, Receive(0));
    CarriedIsInFlight(t, 0);
    name := Name(m.block.transactions[0]);
    FirstIsNamed(m.block.transactions);
    FlyingIsLost(sys, t, CheckLink(0), m.block.transactions, 0);
  }

  lemma TipOfOne(h: HashFn, b: Block)
    ensures Tip(Hasher(h), [b]) == HashHex(h, b)
  {
  }

  lemma FirstIsNamed(ts: seq<Transaction>)
    requires ts != []
    ensures Name(ts[0]) in Names(ts)
  {
    hide Name;
  }

  // ----- a pool check ----------------------------------------------------------------------------------------------

  /** Generators reuse the reserved slots before the block is checked. */
  lemma PoolLoss(sys: System, pid: nat) returns (s: State, name: Bytes)
    requires CanGrow(sys) && Fits(pid, 4 * sys.config.poolSize)
    ensures LosesHere(sys, s, CheckPool(0), name)
  {
    hide Name, Reachable, CountLive, Fits, AllFit, AllLive, Accepts, Hasher, Tip, Links, AllFound, InFlight,
         Mineable, HashHex, FoundPrefix, HasSlot, LosesHere, Leads, OnlyDraws, LiveStay;
    var limit := 4 * sys.config.poolSize;
    var g := GetCalm(sys, pid, limit);
    AllLiveCounts(g.pool);
    var u, b := SendNext(sys, g);
    var f := Refill(sys, u, pid, limit);
    s := LinkSent(sys, f, 0, Message(1, b));
    LeadsReachable(sys, f, s);
    CarriedIsInFlight(s, 0);
    name := Name(b.transactions[0]);
    FullPoolHides(sys, s, b.transactions, 0);
    NothingFound(s.pool, b.transactions);
    FirstIsNamed(b.transactions);
    FlyingIsLost(sys, s, CheckPool(0), b.transactions, 0);
  }

  lemma NothingFound(pool: seq<Slot>, ts: seq<Transaction>)
    requires ts != [] && !HasSlot(pool, Name(ts[0]))
    ensures FoundPrefix(pool, ts) == 0 && ts[FoundPrefix(pool, ts)..] == ts
  {
    hide Name, HasSlot;
    FoundPrefixMeaning(pool, ts);
  }

  // ----- a full ledger -----------------------------------------------------------------------------------------------

  /** A valid block arrives when the ledger is full. */
  lemma RefuseOne(sys: System, s: State) returns (t: State, b: Block)
    requires CanGrow(sys) && Calm(sys, s) && AllLive(s.pool) && |s.ledger| >= sys.config.maxBlocks && s.permits > 0
    ensures Reachable(sys, t)
    ensures t == s.(pool := t.pool, permits := s.permits - 1, returned := t.returned,
                    validators := s.validators[0 := Refused(Message(1, b))])
    ensures |t.pool| == |s.pool| && CountLive(t.pool) == CountLive(s.pool) - sys.config.perBlock
    ensures |b.transactions| == sys.config.perBlock > 0
  {
    hide Name, Reachable, CountLive, AllFit, AllLive, Accepts, Links, Tip, Hasher, HashHex, AllFound, Check, Revived, Mineable;
    var u;
    u, b := SendNext(sys, s);
    t := ClearSent(sys, u, 0, Message(1, b));
    LeadsReachable(sys, u, t);
  }

  lemma FullAndLive(sys: System, pid: nat, limit: nat) returns (s: State)
    requires CanGrow(sys) && Fits(pid, limit) && (sys.config.maxBlocks + 2) * sys.config.poolSize <= limit
    ensures Calm(sys, s) && AllLive(s.pool) && |s.ledger| == sys.config.maxBlocks && s.permits > 0
    ensures Counter(s, pid) <= (sys.config.maxBlocks + 2) * sys.config.poolSize
  {
    hide Reachable, CountLive, Fits, AllFit, AllLive, Mineable;
    var p, n := sys.config.poolSize, sys.config.maxBlocks;
    assert (n + 2) * p == (n + 1) * p + p;
    var g := Grow(sys, n, pid, limit);
    s := Refill(sys, g, pid, limit);
    AllLiveCounts(s.pool);
  }

  /** Generators reuse its slots before it is given back. */
  lemma FullLoss(sys: System, pid: nat) returns (s: State, name: Bytes)
    requires CanGrow(sys) && Fits(pid, (sys.config.maxBlocks + 3) * sys.config.poolSize)
    ensures LosesHere(sys, s, GiveBackRefused(0), name)
  {
    hide Name, Reachable, CountLive, Fits, AllFit, AllLive, InFlight, Mineable, HasSlot,
         LosesHere, OnlyDraws, LiveStay;
    var p, n := sys.config.poolSize, sys.config.maxBlocks;
    assert (n + 3) * p == (n + 2) * p + p;
    var g := FullAndLive(sys, pid, (n + 3) * p);
    AllLiveCounts(g.pool);
    var t, b := RefuseOne(sys, g);
    s := Refill(sys, t, pid, (n + 3) * p);
    CarriedIsInFlight(s, 0);
    name := Name(b.transactions[0]);
    FullPoolHides(sys, s, b.transactions, 0);
    FirstIsNamed(b.transactions);
    FlyingIsLost(sys, s, GiveBackRefused(0), b.transactions, 0);
  }

  // ----- a miner that gives up ---------------------------------------------------------------------------------------

  /** Generators reuse the slots before the transactions are given back. */
  lemma MinerLoss(sys: System, pid: nat) returns (s: State, name: Bytes)
    requires ValidConfig(sys.config) && sys.config.perBlock <= sys.config.poolSize && Fits(pid, 4 * sys.config.poolSize)
    ensures LosesHere(sys, s, GiveBack(0), name)
  {
    hide Name, Reachable, SoundPool, CountLive, Fits, AllFit, AllLive, Reserve, InFlight, HasSlot,
         LosesHere, Leads, OnlyDraws, LiveStay;
    var limit := 4 * sys.config.poolSize;
    var g := GetCalm(sys, pid, limit);
    AllLiveCounts(g.pool);
    RunsKeepSound(sys, g);
    var u, ts := GiveUpOne(sys, g);
    LeadsReachable(sys, g, u);
    s := Refill(sys, u, pid, limit);
    HeldIsInFlight(s, 0);
    name := Name(ts[0]);
    FullPoolHides(sys, s, ts, 0);
    FirstIsNamed(ts);
    FlyingIsLost(sys, s, GiveBack(0), ts, 0);
  }

  lemma HeldIsInFlight(s: State, i: nat)
    requires MinerAt(s, i) && Holds(s.miners[i])
    ensures InFlight(s, Held(s.miners[i]))
  {
  }

  // ----- a full pool -------------------------------------------------------------------------------------------------

  lemma InsertLoss(sys: System, pid: nat) returns (s: State, name: Bytes)
    requires ValidConfig(sys.config) && Fits(pid, sys.config.poolSize)
    ensures LosesHere(sys, s, Generate(pid, DRAW), name)
  {
    hide Name, Reachable, CountLive, Fits, AllLive, IdText, Issued, Lost, Do;
    StartIsReachable(sys);
    NothingLiveAtStart(sys);
    s := Refill(sys, Init(sys), pid, sys.config.poolSize);
    name := IdText(pid, Counter(s, pid));
    FittingIsFresh(s, pid);
    LostIsIssued(s, name);
    FullPoolRefuses(s.pool);
    LostByStepIff(sys, s, Generate(pid, DRAW), name);
  }

  // ----- exactly when ------------------------------------------------------------------------------------------------

  /** In a pool too small for a block nothing is ever taken, so that nothing can be refused or returned. */
  lemma SmallPoolOnlyRefusesInserts(sys: System, s: State, step: Step)
    requires Reachable(sys, s) && Enabled(sys, s, step) && sys.config.perBlock > sys.config.poolSize
    ensures !step.CheckLink? && !step.CheckPool? && !step.GiveBackRefused? && !step.GiveBack?
  {
    hide Reachable, InFlight;
    SmallPoolNeverMoves(sys, s);
    if step.CheckLink? || step.CheckPool? || step.GiveBackRefused? {
      CarriedIsInFlight(s, step.v);
    } else if step.GiveBack? {
      HeldIsInFlight(s, step.i);
    }
  }

  /** Every cause of loss occurs: refused inserts in every system, and each of the four others in exactly
      those whose pool can hold a block. */
  lemma LossesHappenIff(sys: System, pid: nat)
    requires ValidConfig(sys.config) && Mineable(sys.h, sys.config.perBlock)
    requires Fits(pid, (sys.config.maxBlocks + 3) * sys.config.poolSize)
    ensures exists s, name :: LosesHere(sys, s, Generate(pid, DRAW), name)
    ensures (exists s, v, name :: LosesHere(sys, s, CheckLink(v), name)) <==> sys.config.perBlock <= sys.config.poolSize
    ensures (exists s, v, name :: LosesHere(sys, s, CheckPool(v), name)) <==> sys.config.perBlock <= sys.config.poolSize
    ensures (exists s, v, name :: LosesHere(sys, s, GiveBackRefused(v), name)) <==> sys.config.perBlock <= sys.config.poolSize
    ensures (exists s, i, name :: LosesHere(sys, s, GiveBack(i), name)) <==> sys.config.perBlock <= sys.config.poolSize
  {
    hide Reachable, Enabled, Possible, Do, Fits, Lost, Mineable;
    var p, limit := sys.config.poolSize, (sys.config.maxBlocks + 3) * sys.config.poolSize;
    assert 4 * p <= limit && p <= limit;
    FitsBelow(pid, 4 * p, limit);
    FitsBelow(pid, p, limit);
    var s0, n0 := InsertLoss(sys, pid);
    if sys.config.perBlock <= p {
      var s1, n1 := LinkLoss(sys, pid);
      var s2, n2 := PoolLoss(sys, pid);
      var s3, n3 := FullLoss(sys, pid);
      var s4, n4 := MinerLoss(sys, pid);
    } else {
      forall s, step, name | LosesHere(sys, s, step, name)
        ensures !step.CheckLink? && !step.CheckPool? && !step.GiveBackRefused? && !step.GiveBack?
      {
        SmallPoolOnlyRefusesInserts(sys, s, step);
      }
    }
  }

  // ----- credit for nothing --------------------------------------------------------------------------------------------

  lemma RewardsArePositive(sys: System, s: State, ts: seq<Transaction>)
    requires Reachable(sys, s) && InFlight(s, ts)
    ensures RewardSum(ts) >= |ts|
  {
    hide Name, Reachable, Custody, Growth, InFlight;
    ExplainedAlways(sys, s);
    var w: Books :| Custody(sys, s, w) && Growth(s, w);
    BooksExplain(sys, s, w);
    forall i | 0 <= i < |ts| ensures ts[i].reward >= 1 {
      assert FlightOk(s, s.born, ts, i);
    }
    SumOfPositive(ts);
  }

  lemma {:induction false} SumOfPositive(ts: seq<Transaction>)
    requires forall i :: 0 <= i < |ts| ==> ts[i].reward >= 1
    ensures RewardSum(ts) >= |ts|
  {
    if ts != [] {
      SumOfPositive(ts[..|ts| - 1]);
    }
  }

  /** With no validator in the middle of an iteration, more is credited or about to be than the ledger holds. */
  ghost predicate Overpaid(sys: System, s: State) {
    && Reachable(sys, s) && (forall v :: 0 <= v < |s.validators| ==> s.validators[v].Ready? || s.validators[v].Exited?)
    && Total(s.tallies).credits + Sum(s.queue, (m: StatMsg) => if m.valid then m.rewards else 0)
       > Sum(s.ledger, (b: Block) => Sum(b.transactions, (t: Transaction) => t.reward))
  }

  lemma RefusedIsCredited(sys: System, s: State) returns (t: State)
    requires Reachable(sys, s) && |s.validators| == 3 && s.validators[0].Refused? && s.refused == []
    requires s.validators[1].Ready? && s.validators[2].Ready? && s.validators[0].m.block.transactions != []
    ensures Reachable(sys, t) && t.validators == s.validators[0 := Ready]
    ensures t.refused == [s.validators[0].m] && t.refused[0].minerId == s.validators[0].m.minerId
    ensures RewardSum(s.validators[0].m.block.transactions) > 0
  {
    hide Reachable, InFlight, RewardSum, ReturnFirst, PercentFull, Revived;
    CarriedIsInFlight(s, 0);
    RewardsArePositive(sys, s, s.validators[0].m.block.transactions);
    var u := Do(sys, s, GiveBackRefused(0));
    ReachableStep(sys, s, GiveBackRefused(0));
    t := Do(sys, u, Report(0, 0.0));
    ReachableStep(sys, u, Report(0, 0.0));
  }

  lemma OneRefused(m: Message)
    ensures Sum([m], (m: Message) => Sum(m.block.transactions, (t: Transaction) => t.reward)) == RewardSum(m.block.transactions)
  {
    RewardSumMeans(m.block.transactions);
    assert [m][..0] == [];
  }

  /** Miners are credited for blocks that no ledger holds, in some run, if and only if the pool can hold a
      block. */
  lemma OverpaidIff(sys: System, pid: nat)
    requires ValidConfig(sys.config) && Mineable(sys.h, sys.config.perBlock)
    requires Fits(pid, (sys.config.maxBlocks + 3) * sys.config.poolSize)
    ensures (exists s :: Overpaid(sys, s)) <==> sys.config.perBlock <= sys.config.poolSize
  {
    hide Reachable, Fits, Mineable, AllLive, CountLive, InFlight, RewardSum, Sum, Total;
    if sys.config.perBlock <= sys.config.poolSize {
      var p, n := sys.config.poolSize, sys.config.maxBlocks;
      assert (n + 3) * p == (n + 2) * p + p;
      var g := FullAndLive(sys, pid, (n + 3) * p);
      var u, b := RefuseOne(sys, g);
      var t := RefusedIsCredited(sys, u);
      TotalRewardAccounting(sys, t);
      OneRefused(Message(1, b));
      assert Overpaid(sys, t);
    } else {
      forall s | Reachable(sys, s) ensures !Overpaid(sys, s) {
        SmallPoolNeverMoves(sys, s);
        NothingRefused();
        if forall v :: 0 <= v < |s.validators| ==> s.validators[v].Ready? || s.validators[v].Exited? {
          TotalRewardAccounting(sys, s);
        }
      }
    }
  }

  lemma NothingRefused()
    ensures Sum([], (m: Message) => Sum(m.block.transactions, (t: Transaction) => t.reward)) == 0
  {
  }
}
