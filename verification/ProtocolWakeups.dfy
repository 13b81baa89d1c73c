/** How many transactions can be waiting for how few notifications: inserts lose no wake-up. Returns
    notify nobody; what that leads to is in ProtocolStalls. */
module ProtocolWakeups {
  import opened Data
  import opened Sums
  import opened Protocol
  import opened Pow
  import opened Chain
  import opened PoolSpec
  import opened ProtocolAgeing
  import opened ProtocolSafety

  /** A miner that took a permit and has not selected yet. */
  function TokenOne(m: Miner): int { if m.Woken? || m.HasTip? then 1 else 0 }

  function Tokens(s: State): int { s.permits + Sum(s.miners, TokenOne) + s.unposted }

  ghost predicate Notified(sys: System, s: State) {
    && sys.config.perBlock > 0
    && CountLive(s.pool) <= Tokens(s) + sys.config.perBlock - 1 + s.returned
  }

  lemma RemoveNeverRevives(slots: seq<Slot>, ts: seq<Transaction>)
    ensures CountLive(PoolSpec.Remove(slots, ts)) <= CountLive(slots)
  {
    hide PoolSpec.Remove;
    RemoveTouches(slots, ts);
    CountLiveMonotone(PoolSpec.Remove(slots, ts), slots);
  }

  lemma AgeKeepsLive(slots: seq<Slot>)
    ensures CountLive(AgeAll(slots)) == CountLive(slots)
  {
    forall i | 0 <= i < |slots| ensures LiveOne(AgeAll(slots)[i]) == LiveOne(slots[i]) {
      assert AgeAll(slots)[i] == AgeSlot(slots[i]);
    }
    CountLiveMonotone(AgeAll(slots), slots);
    CountLiveMonotone(slots, AgeAll(slots));
  }

  lemma SelectCounts(pool: seq<Slot>, k: nat)
    requires UniqueLiveNames(pool)
    ensures Reserve(pool, k).1.None? ==> CountLive(pool) < k
    ensures Reserve(pool, k).1.Some? ==> CountLive(Reserve(pool, k).0) == CountLive(pool) - k
  {
    ReserveRemovesK(pool, k);
    PickedLength(pool, k);
  }

  lemma SelectNotified(sys: System, s: State, i: nat)
    requires Notified(sys, s) && UniqueLiveNames(s.pool) && Enabled(sys, s, Select(i))
    ensures Notified(sys, Do(sys, s, Select(i)))
  {
    SelectCounts(s.pool, sys.config.perBlock);
    SumUpdate(s.miners, i, Waiting, TokenOne);
    SumWithin(s.miners[i := Waiting], TokenOne);
    hide Reserve, CountLive, Sum;
    match Reserve(s.pool, sys.config.perBlock).1
    case None =>
    case Some(ts) =>
      SumUpdate(s.miners, i, Reserved(s.miners[i].previous, s.miners[i].blockId, ts), TokenOne);
  }

  lemma MinerNotified(sys: System, s: State, step: Step)
    requires Notified(sys, s) && Enabled(sys, s, step)
    requires step.Wake? || step.ReadTip? || step.Mine? || step.MineFails? || step.Send? || step.SendFails? || step.GiveBack?
    ensures Notified(sys, Do(sys, s, step))
  {
    hide Finds, Fails, ReturnAll, Tip, Hasher, CountLive, NewBlock, Sum;
    SumUpdate(s.miners, step.i, Do(sys, s, step).miners[step.i], TokenOne);
  }

  lemma OtherNotified(sys: System, s: State, step: Step)
    requires Notified(sys, s) && Enabled(sys, s, step)
    requires step.Post? || step.Receive? || step.CheckLink? || step.CheckPool? || step.CheckCapacity? || step.Append?
          || step.Remove? || step.GiveBackRefused? || step.Report? || step.Age? || step.Fork? || step.Exit? || step.Collect?
    ensures Notified(sys, Do(sys, s, step))
  {
    hide Accepts, Check, AgeAll, ReturnFirst, PoolSpec.Remove, Links, Tip, Hasher, CountLive, PercentFull, RewardSum, Sum;
    if step.Remove? {
      RemoveNeverRevives(s.pool, s.validators[step.v].m.block.transactions);
    } else if step.Age? {
      AgeKeepsLive(s.pool);
    }
  }

  lemma GenerateNotified(sys: System, s: State, pid: nat, d: Draw)
    requires Notified(sys, s) && Enabled(sys, s, Generate(pid, d))
    ensures Notified(sys, Do(sys, s, Generate(pid, d)))
  {
    hide Name, Insert, CountLive, PercentFull, NewTx, Sum;
    InsertAddsOne(s.pool, NewTx(pid, Counter(s, pid), d));
  }

  lemma NotifiedStep(sys: System, s: State, step: Step)
    requires Notified(sys, s) && UniqueLiveNames(s.pool) && Enabled(sys, s, step)
    ensures Notified(sys, Do(sys, s, step))
  {
    hide Enabled, Possible, Do, Notified, UniqueLiveNames;
    match step
    case Generate(pid, d) => GenerateNotified(sys, s, pid, d);
    case Select(i) => SelectNotified(sys, s, i);
    case Wake(_) => MinerNotified(sys, s, step);
    case ReadTip(_) => MinerNotified(sys, s, step);
    case Mine(_, _, _, _) => MinerNotified(sys, s, step);
    case MineFails(_, _, _) => MinerNotified(sys, s, step);
    case Send(_) => MinerNotified(sys, s, step);
    case SendFails(_) => MinerNotified(sys, s, step);
    case GiveBack(_) => MinerNotified(sys, s, step);
    case _ => OtherNotified(sys, s, step);
  }

  lemma NotifiedAtStart(sys: System)
    requires ValidConfig(sys.config)
    ensures Notified(sys, Init(sys))
  {
    SumZero(Init(sys).pool, LiveOne);
    SumZero(Init(sys).miners, TokenOne);
  }

  lemma NotifiedAlways(sys: System, s: State)
    requires Reachable(sys, s)
    ensures Notified(sys, s)
  {
    hide Explained, Notified, Enabled, Possible, Do;
    var inv := (s: State) => Explained(sys, s) && Notified(sys, s);
    forall s, step | inv(s) && Enabled(sys, s, step) ensures inv(Do(sys, s, step)) {
      ExplainedStep(sys, s, step);
      ExplainedIsSound(sys, s);
      NotifiedStep(sys, s, step);
    }
    if ValidConfig(sys.config) {
      ExplainedAtStart(sys);
      NotifiedAtStart(sys);
    }
    InductiveIsInvariant(sys, inv, s);
  }

  /** In every state of every run, the live transactions are covered by the notifications that
      are pending in some form (permits, woken miners that have not selected, posts still to
      come), the k - 1 that do not fill a block, and those handed back to the pool. */
  lemma NoLostWakeup(sys: System, s: State)
    requires Reachable(sys, s)
    ensures CountLive(s.pool) <= Tokens(s) + sys.config.perBlock - 1 + s.returned
    ensures Tokens(s) == 0 && s.returned == 0 ==> CountLive(s.pool) < sys.config.perBlock
  {
    NotifiedAlways(sys, s);
  }
}
