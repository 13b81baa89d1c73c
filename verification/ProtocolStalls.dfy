/** Returns do not notify anybody, so that the system can come to a halt with a full pool: when, and for
    how long. */
module ProtocolStalls {
  import opened Data
  import opened Sums
  import opened TxIds
  import opened Bytes
  import opened Pow
  import opened Statistics
  import opened PoolSpec
  import opened Protocol
  import opened ProtocolSafety
  import opened ProtocolWakeups
  import opened ProtocolFates

  ghost predicate AllLive(pool: seq<Slot>) {
    forall j :: 0 <= j < |pool| ==> !pool[j].empty
  }

  /** No notification is pending in any form, and every slot holds a waiting transaction. */
  ghost predicate Jammed(s: State) {
    Tokens(s) == 0 && AllLive(s.pool)
  }

  lemma NoTokens(s: State)
    requires Tokens(s) == 0
    ensures s.permits == 0 && s.unposted == 0
    ensures forall i :: 0 <= i < |s.miners| ==> TokenOne(s.miners[i]) == 0
  {
    hide Sum;
    SumWithin(s.miners, TokenOne);
    forall i | 0 <= i < |s.miners| ensures TokenOne(s.miners[i]) == 0 {
      SumCovers(s.miners, i, TokenOne);
    }
  }

  lemma FullPoolRefuses(pool: seq<Slot>)
    ensures FirstEmpty(pool) == |pool| <==> AllLive(pool)
  {
  }

  lemma MinerKeepsTokens(sys: System, s: State, step: Step)
    requires Tokens(s) == 0 && Enabled(sys, s, step)
    requires step.Mine? || step.MineFails? || step.Send? || step.SendFails? || step.GiveBack?
    ensures Tokens(Do(sys, s, step)) == 0
  {
    hide Finds, Fails, ReturnAll, Revived, NewBlock, Sum;
    var t := Do(sys, s, step);
    SumUpdate(s.miners, step.i, t.miners[step.i], TokenOne);
  }

  lemma OthersKeepTokens(sys: System, s: State, step: Step)
    requires Jammed(s) && Enabled(sys, s, step)
    requires step.Receive? || step.CheckLink? || step.CheckPool? || step.CheckCapacity? || step.Append? || step.Remove?
          || step.GiveBackRefused? || step.Report? || step.Age? || step.Fork? || step.Exit? || step.Collect?
    ensures Tokens(Do(sys, s, step)) == 0
  {
    hide Accepts, Chain.Links, Chain.Tip, Chain.Hasher, Check, ReturnFirst, PoolSpec.Remove, AgeAll, PercentFull,
         Revived, RewardSum, Record, Sum;
  }

  lemma JammedTokens(sys: System, s: State, step: Step)
    requires Jammed(s) && Enabled(sys, s, step)
    ensures Tokens(Do(sys, s, step)) == 0
  {
    NoTokens(s);
    FullPoolRefuses(s.pool);
    match step
    case Mine(_, _, _, _) => MinerKeepsTokens(sys, s, step);
    case MineFails(_, _, _) => MinerKeepsTokens(sys, s, step);
    case Send(_) => MinerKeepsTokens(sys, s, step);
    case SendFails(_) => MinerKeepsTokens(sys, s, step);
    case GiveBack(_) => MinerKeepsTokens(sys, s, step);
    case Generate(pid, d) => RefusedInsert(sys, s, pid, d);
    case Post =>
    case Wake(_) =>
    case ReadTip(_) =>
    case Select(_) =>
    case _ => OthersKeepTokens(sys, s, step);
  }

  lemma RefusedInsert(sys: System, s: State, pid: nat, d: Draw)
    requires Jammed(s) && Enabled(sys, s, Generate(pid, d))
    ensures Tokens(Do(sys, s, Generate(pid, d))) == 0
  {
    FullPoolRefuses(s.pool);
    hide Name, NewTx, IsLiveDuplicate, PercentFull, FirstEmpty, Sum, AllLive;
  }

  /** The same transactions go on waiting in the same slots. */
  ghost predicate SameWaiting(a: seq<Slot>, b: seq<Slot>) {
    |a| == |b| && forall j :: 0 <= j < |a| ==> Name(a[j].tx) == Name(b[j].tx)
  }

  lemma PoolSize(sys: System, s: State, step: Step)
    requires Possible(sys, s, step)
    ensures |Do(sys, s, step).pool| == |s.pool|
  {
    hide Name, Finds, Fails, Insert, Reserve, Check, AgeAll, ReturnAll, ReturnFirst, PoolSpec.Remove,
         PercentFull, Revived, Draft, NewTx, RewardSum, Record;
  }

  lemma JammedStep(sys: System, s: State, step: Step)
    requires Reachable(sys, s) && Jammed(s) && Enabled(sys, s, step)
    ensures Jammed(Do(sys, s, step)) && SameWaiting(s.pool, Do(sys, s, step).pool)
  {
    hide Name, Reachable;
    JammedTokens(sys, s, step);
    PoolSize(sys, s, step);
    NoTokens(s);
    var t := Do(sys, s, step);
    if step.Remove? {
      RemoveSparesWaiting(sys, s, step.v);
    } else {
      assert !step.Select?;
      forall j | 0 <= j < |s.pool| ensures !t.pool[j].empty && Name(t.pool[j].tx) == Name(s.pool[j].tx) {
        SlotStays(sys, s, step, j);
      }
    }
  }

  /** A jam is for ever: in every continuation no miner is woken and the same transactions wait. */
  lemma {:induction false} JammedForever(sys: System, s: State, steps: seq<Step>)
    requires Reachable(sys, s) && Jammed(s) && Runs(sys, s, steps)
    ensures Jammed(After(sys, s, steps)) && SameWaiting(s.pool, After(sys, s, steps).pool)
    decreases |steps|
  {
    hide Reachable, Jammed, Enabled, Possible, Do, Name;
    if steps != [] {
      JammedStep(sys, s, steps[0]);
      ReachableStep(sys, s, steps[0]);
      JammedForever(sys, Do(sys, s, steps[0]), steps[1..]);
    }
  }

  /** Live slots stay exactly as they are. */
  ghost predicate LiveStay(before: seq<Slot>, after: seq<Slot>) {
    |before| == |after| && forall j :: 0 <= j < |before| && !before[j].empty ==> after[j] == before[j]
  }

  lemma InsertSparesLive(pool: seq<Slot>, tx: Transaction)
    ensures LiveStay(pool, Insert(pool, tx).0)
  {
    hide Name, IsLiveDuplicate;
  }

  /** An insert that finds room, and its post. */
  lemma InsertAndPost(sys: System, s: State, pid: nat, d: Draw) returns (steps: seq<Step>)
    requires Reachable(sys, s) && Fresh(s, pid) && 1 <= d.reward <= 3 && !AllLive(s.pool)
    ensures Runs(sys, s, steps)
    ensures var t := After(sys, s, steps);
            && t == s.(pool := t.pool, occupancy := PercentFull(t.pool), permits := s.permits + 1,
                       counters := s.counters[pid := Counter(s, pid) + 1], born := t.born)
            && LiveStay(s.pool, t.pool) && CountLive(t.pool) == CountLive(s.pool) + 1
  {
    hide Name, Reachable, NewTx, PercentFull, Issued, IdText, AllLive, FirstEmpty, LiveStay;
    FullPoolRefuses(s.pool);
    var tx := NewTx(pid, Counter(s, pid), d);
    InsertAddsOne(s.pool, tx);
    InsertSparesLive(s.pool, tx);
    FreshIsInserted(sys, s, pid, d);
    hide Insert, CountLive;
    var t := Do(sys, s, Generate(pid, d));
    FirstStep(sys, t, Post, []);
    FirstStep(sys, s, Generate(pid, d), [Post] + []);
    steps := [Generate(pid, d)] + ([Post] + []);
  }

  lemma FreshIsInserted(sys: System, s: State, pid: nat, d: Draw)
    requires Reachable(sys, s) && Fresh(s, pid) && FirstEmpty(s.pool) < |s.pool|
    ensures Insert(s.pool, NewTx(pid, Counter(s, pid), d)).1.Inserted?
  {
    hide Name, Reachable, NewTx, Issued, IdText;
    if IsLiveDuplicate(s.pool, FirstEmpty(s.pool), NewTx(pid, Counter(s, pid), d)) {
      AccountedIsIssued(sys, s, IdText(pid, Counter(s, pid)));
    }
  }

  /** With no notification pending, and as long as some generator has a fresh identifier, there can be
      another notification if and only if some slot is empty. */
  lemma WakesAgainIff(sys: System, s: State, pid: nat)
    requires Reachable(sys, s) && Tokens(s) == 0 && Fresh(s, pid)
    ensures (exists steps :: Runs(sys, s, steps) && After(sys, s, steps).permits > 0)
       <==> exists j :: 0 <= j < |s.pool| && s.pool[j].empty
  {
    hide Reachable, Runs, After, Name, Fresh;
    NoTokens(s);
    if AllLive(s.pool) {
      forall steps | Runs(sys, s, steps) ensures After(sys, s, steps).permits == 0 {
        JammedForever(sys, s, steps);
        NoTokens(After(sys, s, steps));
      }
    } else {
      var steps := InsertAndPost(sys, s, pid, Draw(1, 0, 0, Zeros(16)));
    }
  }

  // ----- nothing moves any more ------------------------------------------------------------------------------

  /** Jammed, and nothing is on its way either. */
  ghost predicate Stalled(s: State) {
    && Jammed(s) && s.pipe == []
    && (forall i :: 0 <= i < |s.miners| ==> s.miners[i].Waiting?)
    && (forall v :: 0 <= v < |s.validators| ==> s.validators[v].Ready? || s.validators[v].Exited?)
  }

  lemma JammedHasNoTokens(s: State)
    requires Jammed(s)
    ensures s.permits == 0
  {
    NoTokens(s);
  }

  lemma StalledStep(sys: System, s: State, step: Step)
    requires Reachable(sys, s) && Stalled(s) && Enabled(sys, s, step)
    ensures Stalled(Do(sys, s, step)) && Do(sys, s, step).ledger == s.ledger
  {
    hide Name, Reachable, Insert, AgeAll, PercentFull, NewTx, Jammed, Record;
    JammedStep(sys, s, step);
    JammedHasNoTokens(s);
  }

  /** Once stalled, the system stays so: every slot is full, nobody is ever woken, and the ledger never
      grows again. */
  lemma {:induction false} StalledForever(sys: System, s: State, steps: seq<Step>)
    requires Reachable(sys, s) && Stalled(s) && Runs(sys, s, steps)
    ensures Stalled(After(sys, s, steps)) && After(sys, s, steps).ledger == s.ledger
    decreases |steps|
  {
    hide Reachable, Stalled, Enabled, Possible, Do;
    if steps != [] {
      StalledStep(sys, s, steps[0]);
      ReachableStep(sys, s, steps[0]);
      StalledForever(sys, Do(sys, s, steps[0]), steps[1..]);
    }
  }
}
