/** What the steps of a run do to the numbers kept with the pool: the occupancy and what is decided by it, the
    ages and rewards of waiting transactions, and how many were returned. */
module ProtocolPool {
  import opened Data
  import opened Sums
  import opened Pow
  import opened Chain
  import opened PoolSpec
  import opened Statistics
  import opened Protocol
  import opened ProtocolStalls

  // ----- occupancy -----------------------------------------------------------------------------------------

  /** A successful insert, a removal and the return from a full ledger. */
  ghost predicate Recomputes(s: State, step: Step) {
    || step.Remove? || step.GiveBackRefused?
    || (step.Generate? && Insert(s.pool, NewTx(step.pid, Counter(s, step.pid), step.draw)).1.Inserted?)
  }

  /** The occupancy is the percentage of live slots, rounded down, as of the last of those steps: every other
      step leaves it as it is, also when it changes how many slots are live. */
  lemma OccupancyStep(sys: System, s: State, step: Step)
    requires Possible(sys, s, step) && |s.pool| > 0
    ensures var t, n := Do(sys, s, step), |s.pool|;
            && |t.pool| == n
            && if Recomputes(s, step)
               then t.occupancy * n <= 100 * |set j | 0 <= j < n && !t.pool[j].empty| < (t.occupancy + 1) * n
               else t.occupancy == s.occupancy
  {
    PoolSize(sys, s, step);
    hide Name, Accepts, Finds, Fails, Insert, Reserve, Check, AgeAll, ReturnAll, ReturnFirst, PoolSpec.Remove, Links, Tip,
         Hasher, CountLive, Occupancy, Revived, NewTx, RewardSum, NewBlock, Record;
    var t := Do(sys, s, step);
    if Recomputes(s, step) {
      OccupancyMeans(t.pool);
    }
  }

  lemma OccupancyAtStart(sys: System)
    requires sys.config.poolSize > 0
    ensures var s, n := Init(sys), sys.config.poolSize;
            |s.pool| == n && s.occupancy * n <= 100 * |set j | 0 <= j < n && !s.pool[j].empty| < (s.occupancy + 1) * n
  {
    assert (set j | 0 <= j < sys.config.poolSize && !Init(sys).pool[j].empty) == {};
  }

  /** While the occupancy is that of the pool, who may be created and who may leave depends on how many of the n
      slots are live: four fifths and three fifths to create, less than 41 hundredths to leave. */
  lemma ManagedByLiveSlots(sys: System, s: State, live: nat, v: nat)
    requires s.occupancy * |s.pool| <= 100 * live < (s.occupancy + 1) * |s.pool|
    ensures Possible(sys, s, Fork) <==>
      && ValidatorAt(s, 0) && s.validators[0].Ready?
      && (|| (5 * live >= 4 * |s.pool| && s.active < 3)
          || (3 * |s.pool| <= 5 * live < 4 * |s.pool| && s.active < 2))
    ensures Possible(sys, s, Exit(v)) <==> 0 < v < |s.validators| && s.validators[v].Ready? && 100 * live < 41 * |s.pool|
  {
    Thresholds(s.occupancy, live, |s.pool|);
  }

  // ----- returns -------------------------------------------------------------------------------------------

  lemma {:induction false} RevivedAre(before: seq<Slot>, after: seq<Slot>)
    requires |before| == |after| && forall j :: 0 <= j < |before| && !before[j].empty ==> !after[j].empty
    ensures CountLive(after) == CountLive(before) + |set j | 0 <= j < |before| && before[j].empty && !after[j].empty|
  {
    var all := set j | 0 <= j < |before| && before[j].empty && !after[j].empty;
    if before == [] {
      assert all == {};
    } else {
      var n := |before| - 1;
      RevivedAre(before[..n], after[..n]);
      var less := set j | 0 <= j < n && before[..n][j].empty && !after[..n][j].empty;
      assert all == if before[n].empty && !after[n].empty then less + {n} else less;
    }
  }

  lemma ReturnsKeepLive(pool: seq<Slot>, ts: seq<Transaction>)
    ensures forall j :: 0 <= j < |pool| && !pool[j].empty ==> !ReturnAll(pool, ts)[j].empty && !ReturnFirst(pool, ts)[j].empty
    ensures forall j :: 0 <= j < |pool| && !pool[j].empty ==> !Check(pool, ts).0[j].empty
  {
    hide Name, ReturnAll, ReturnFirst, FoundPrefix;
    ReturnAllAt(pool, ts);
    ReturnFirstAt(pool, ts);
    ReturnFirstAt(pool, ts[..FoundPrefix(pool, ts)]);
  }

  /** `returned` counts exactly the slots that a miner's or a validator's return brings back to life. */
  lemma ReturnedCounts(sys: System, s: State, step: Step)
    requires Possible(sys, s, step)
    ensures var t := Do(sys, s, step);
            && |t.pool| == |s.pool|
            && t.returned == s.returned +
                 if step.GiveBack? || step.CheckPool? || step.GiveBackRefused?
                 then |set j | 0 <= j < |s.pool| && s.pool[j].empty && !t.pool[j].empty| else 0
  {
    PoolSize(sys, s, step);
    hide Name, Accepts, Finds, Fails, Insert, Reserve, Check, AgeAll, ReturnAll, ReturnFirst, PoolSpec.Remove, Links, Tip,
         Hasher, CountLive, PercentFull, NewTx, RewardSum, NewBlock, Record;
    var t := Do(sys, s, step);
    if step.GiveBack? || step.CheckPool? || step.GiveBackRefused? {
      ReturnsKeepLive(s.pool, if step.GiveBack? then s.miners[step.i].transactions
                              else s.validators[step.v].m.block.transactions);
      RevivedAre(s.pool, t.pool);
    }
  }

  // ----- ageing --------------------------------------------------------------------------------------------

  lemma LiveSlotStep(sys: System, s: State, step: Step, j: nat)
    requires Possible(sys, s, step) && j < |s.pool| && !s.pool[j].empty
    ensures var t := Do(sys, s, step);
            |t.pool| == |s.pool| && (t.pool[j].empty || t.pool[j] == if step.Age? then AgeSlot(s.pool[j]) else s.pool[j])
  {
    PoolSize(sys, s, step);
    if step.Generate? {
      InsertSparesLive(s.pool, NewTx(step.pid, Counter(s, step.pid), step.draw));
    } else if step.Remove? {
      RemoveFirstAt(s.pool, s.validators[step.v].m.block.transactions);
    } else if step.GiveBack? {
      ReturnAllAt(s.pool, s.miners[step.i].transactions);
    } else if step.GiveBackRefused? {
      ReturnFirstAt(s.pool, s.validators[step.v].m.block.transactions);
    } else if step.CheckPool? {
      var ts := s.validators[step.v].m.block.transactions;
      ReturnFirstAt(s.pool, ts[..FoundPrefix(s.pool, ts)]);
    }
    hide Name, Accepts, Finds, Fails, Insert, Picked, ReturnAll, ReturnFirst, PoolSpec.Remove, Links, Tip, FoundPrefix,
         Hasher, CountLive, PercentFull, Revived, NewTx, RewardSum, NewBlock, Record, AgeSlot;
  }

  /** Slot j is live in every state that the run passes through. */
  ghost predicate StaysLive(sys: System, s: State, steps: seq<Step>, j: nat) {
    forall n :: 0 <= n <= |steps| ==>
      Runs(sys, s, steps[..n]) && j < |After(sys, s, steps[..n]).pool| && !After(sys, s, steps[..n]).pool[j].empty
  }

  lemma OneOlder(s: Slot, n: nat, t: Slot)
    requires !s.empty && t == Slot(s.tx.(reward := s.tx.reward + (s.age + n) / 50 - s.age / 50), false, s.age + n)
    ensures AgeSlot(t) == Slot(s.tx.(reward := s.tx.reward + (s.age + n + 1) / 50 - s.age / 50), false, s.age + n + 1)
  {
    assert (s.age + n + 1) / 50 - (s.age + n) / 50 == if (s.age + n + 1) % 50 == 0 then 1 else 0;
  }

  /** A slot that stays live over a run has aged by the number of Age steps in it, has gained a reward at each
      multiple of 50, and shows the same transaction otherwise. */
  lemma {:induction false} WaitingAges(sys: System, s: State, steps: seq<Step>, j: nat)
    requires Runs(sys, s, steps) && StaysLive(sys, s, steps, j)
    ensures j < |s.pool| && j < |After(sys, s, steps).pool|
    ensures var x, rounds := s.pool[j], Sum(steps, (step: Step) => if step.Age? then 1 else 0);
            After(sys, s, steps).pool[j] ==
              Slot(x.tx.(reward := x.tx.reward + (x.age + rounds) / 50 - x.age / 50), false, x.age + rounds)
    decreases |steps|
  {
    hide Enabled, Possible, Do, AgeSlot;
    assert steps[..0] == [] && Runs(sys, s, steps[..0]) && After(sys, s, steps[..0]) == s;
    var n := |steps| - 1;
    if n >= 0 {
      LastStep(sys, s, steps, n);
      assert steps[..n + 1] == steps;
      forall m | 0 <= m <= n ensures steps[..n][..m] == steps[..m] {
      }
      WaitingAges(sys, s, steps[..n], j);
      var u := After(sys, s, steps[..n]);
      LiveSlotStep(sys, u, steps[n], j);
      var rounds := Sum(steps[..n], (step: Step) => if step.Age? then 1 else 0);
      SumNotNegative(steps[..n]);
      OneOlder(s.pool[j], rounds, u.pool[j]);
    }
  }

  lemma {:induction false} SumNotNegative(steps: seq<Step>)
    ensures Sum(steps, (step: Step) => if step.Age? then 1 else 0) >= 0
  {
    SumWithin(steps, (step: Step) => if step.Age? then 1 else 0);
  }
}
