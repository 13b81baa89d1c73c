/** The identifiers of a long-lived generator repeat once they no longer fit into their field. Without the
    assumption that every one drawn is new, a run can then commit one twice: exactly when. */
module ProtocolDoubles {
  import opened Bytes
  import opened Data
  import opened TxIds
  import opened Pow
  import opened Chain
  import opened PoolSpec
  import opened Protocol
  import opened ProtocolAgeing
  import opened ProtocolFates
  import opened ProtocolLoss
  import opened ProtocolBuilding
  import opened ProtocolSafety
  import opened ProtocolStalls
  import opened ProtocolScenarios

  // ----- runs in which identifiers may repeat --------------------------------------------------------------------

  ghost predicate FreeRuns(sys: System, s: State, steps: seq<Step>)
    decreases |steps|
  {
    steps == [] || (Possible(sys, s, steps[0]) && FreeRuns(sys, Do(sys, s, steps[0]), steps[1..]))
  }

  ghost function FreeAfter(sys: System, s: State, steps: seq<Step>): State
    requires FreeRuns(sys, s, steps)
    decreases |steps|
  {
    if steps == [] then s else FreeAfter(sys, Do(sys, s, steps[0]), steps[1..])
  }

  ghost predicate FreelyReachable(sys: System, s: State) {
    ValidConfig(sys.config) && exists steps :: FreeRuns(sys, Init(sys), steps) && FreeAfter(sys, Init(sys), steps) == s
  }

  lemma {:induction false} FreeAppend(sys: System, s: State, a: seq<Step>, b: seq<Step>)
    requires FreeRuns(sys, s, a) && FreeRuns(sys, FreeAfter(sys, s, a), b)
    ensures FreeRuns(sys, s, a + b) && FreeAfter(sys, s, a + b) == FreeAfter(sys, FreeAfter(sys, s, a), b)
    decreases |a|
  {
    hide Possible, Do;
    if a == [] {
      assert a + b == b;
    } else {
      FreeAppend(sys, Do(sys, s, a[0]), a[1..], b);
      assert (a + b)[1..] == a[1..] + b;
    }
  }

  lemma {:induction false} RunsAreFree(sys: System, s: State, steps: seq<Step>)
    requires Runs(sys, s, steps)
    ensures FreeRuns(sys, s, steps) && FreeAfter(sys, s, steps) == After(sys, s, steps)
    decreases |steps|
  {
    hide Enabled, Possible, Do;
    if steps != [] {
      RunsAreFree(sys, Do(sys, s, steps[0]), steps[1..]);
    }
  }

  lemma FreeOn(sys: System, s: State, steps: seq<Step>)
    requires FreelyReachable(sys, s) && FreeRuns(sys, s, steps)
    ensures FreelyReachable(sys, FreeAfter(sys, s, steps))
  {
    hide FreeRuns, FreeAfter, Init;
    var first :| FreeRuns(sys, Init(sys), first) && FreeAfter(sys, Init(sys), first) == s;
    FreeAppend(sys, Init(sys), first, steps);
  }

  lemma FreeStep(sys: System, s: State, step: Step)
    requires FreelyReachable(sys, s) && Possible(sys, s, step)
    ensures FreelyReachable(sys, Do(sys, s, step))
  {
    hide FreelyReachable, Possible, Do;
    assert [step][1..] == [];
    FreeOn(sys, s, [step]);
  }

  lemma LeadsFreely(sys: System, s: State, t: State)
    requires FreelyReachable(sys, s) && Leads(sys, s, t)
    ensures FreelyReachable(sys, t)
  {
    hide FreelyReachable, Runs, After;
    var steps :| Runs(sys, s, steps) && After(sys, s, steps) == t;
    RunsAreFree(sys, s, steps);
    FreeOn(sys, s, steps);
  }

  lemma ReachableIsFree(sys: System, s: State)
    requires Reachable(sys, s)
    ensures FreelyReachable(sys, s)
  {
    hide Runs, After, Init;
    var steps :| Runs(sys, Init(sys), steps) && After(sys, Init(sys), steps) == s;
    RunsAreFree(sys, Init(sys), steps);
  }

  // ----- as long as none repeats -----------------------------------------------------------------------------------

  ghost predicate Drawn(s: State, pid: nat, counter: nat) { counter < Counter(s, pid) }

  ghost predicate DrawnDistinct(s: State) {
    forall p: nat, c: nat, q: nat, d: nat :: Drawn(s, p, c) && Drawn(s, q, d) && IdText(p, c) == IdText(q, d) ==>
      p == q && c == d
  }

  lemma DrawsCount(sys: System, s: State, step: Step, p: nat)
    requires Possible(sys, s, step)
    ensures Counter(Do(sys, s, step), p) == Counter(s, p) + if step.Generate? && step.pid == p then 1 else 0
  {
    hide Name, Accepts, Finds, Fails, Insert, Reserve, Check, AgeAll, ReturnAll, ReturnFirst, PoolSpec.Remove,
         Links, Tip, Hasher, PercentFull, Revived, NewTx, RewardSum, NewBlock, Statistics.Record;
  }

  lemma {:induction false} DrawnStays(sys: System, s: State, steps: seq<Step>, p: nat, c: nat)
    requires FreeRuns(sys, s, steps) && Drawn(s, p, c)
    ensures Drawn(FreeAfter(sys, s, steps), p, c)
    decreases |steps|
  {
    hide Possible, Do;
    if steps != [] {
      DrawsCount(sys, s, steps[0], p);
      DrawnStays(sys, Do(sys, s, steps[0]), steps[1..], p, c);
    }
  }

  lemma DrawIsFresh(sys: System, s: State, pid: nat, draw: Draw, rest: seq<Step>)
    requires Possible(sys, s, Generate(pid, draw)) && FreeRuns(sys, Do(sys, s, Generate(pid, draw)), rest)
    requires DrawnDistinct(FreeAfter(sys, Do(sys, s, Generate(pid, draw)), rest))
    ensures Fresh(s, pid)
  {
    hide Possible, Do, FreeRuns, FreeAfter, IdText;
    var t := Do(sys, s, Generate(pid, draw));
    DrawsCount(sys, s, Generate(pid, draw), pid);
    DrawnStays(sys, t, rest, pid, Counter(s, pid));
    if p: nat, c: nat :| p in s.counters && c < s.counters[p] && IdText(pid, Counter(s, pid)) == IdText(p, c) {
      DrawsCount(sys, s, Generate(pid, draw), p);
      DrawnStays(sys, t, rest, p, c);
      assert p == pid && c == Counter(s, pid);
    }
  }

  /** A run whose identifiers, all told, are different is one of the runs that every other file is about. */
  lemma {:induction false} DistinctIsGuarded(sys: System, s: State, steps: seq<Step>)
    requires FreeRuns(sys, s, steps) && DrawnDistinct(FreeAfter(sys, s, steps))
    ensures Runs(sys, s, steps) && After(sys, s, steps) == FreeAfter(sys, s, steps)
    decreases |steps|
  {
    hide Possible, Do, DrawnDistinct, Fresh;
    if steps != [] {
      if steps[0].Generate? {
        DrawIsFresh(sys, s, steps[0].pid, steps[0].draw, steps[1..]);
      }
      DistinctIsGuarded(sys, Do(sys, s, steps[0]), steps[1..]);
    }
  }

  lemma DistinctIsReachable(sys: System, s: State)
    requires FreelyReachable(sys, s) && DrawnDistinct(s)
    ensures Reachable(sys, s)
  {
    hide FreeRuns, FreeAfter, Runs, After, Init, DrawnDistinct;
    var steps :| FreeRuns(sys, Init(sys), steps) && FreeAfter(sys, Init(sys), steps) == s;
    DistinctIsGuarded(sys, Init(sys), steps);
  }

  /** One more draw, of a new identifier, or none. */
  lemma FreshStaysDistinct(s: State, t: State, pid: nat, draws: nat)
    requires DrawnDistinct(s) && draws <= 1 && (draws == 1 ==> Fresh(s, pid))
    requires forall p: nat :: Counter(t, p) == Counter(s, p) + if p == pid then draws else 0
    ensures DrawnDistinct(t)
  {
    hide IdText;
    assert forall p: nat, c: nat :: Drawn(s, p, c) ==> Issued(s.counters, IdText(p, c));
  }

  lemma DistinctStep(sys: System, s: State, step: Step)
    requires DrawnDistinct(s) && Enabled(sys, s, step)
    ensures DrawnDistinct(Do(sys, s, step))
  {
    hide Possible, Do, DrawnDistinct, Fresh, Counter;
    forall p: nat
      ensures Counter(Do(sys, s, step), p) == Counter(s, p) + if step.Generate? && step.pid == p then 1 else 0
    {
      DrawsCount(sys, s, step, p);
    }
    if step.Generate? {
      FreshStaysDistinct(s, Do(sys, s, step), step.pid, 1);
    } else {
      FreshStaysDistinct(s, Do(sys, s, step), 0, 0);
    }
  }

  /** The runs that every other file is about are exactly those of the program in which no identifier is
      drawn twice. */
  lemma ReachableIffDistinct(sys: System, s: State)
    ensures Reachable(sys, s) <==> FreelyReachable(sys, s) && DrawnDistinct(s)
  {
    hide Reachable, FreelyReachable, DrawnDistinct, Enabled, Possible, Do, Init;
    if FreelyReachable(sys, s) && DrawnDistinct(s) {
      DistinctIsReachable(sys, s);
    }
    if Reachable(sys, s) {
      ReachableIsFree(sys, s);
      forall s, step | DrawnDistinct(s) && Enabled(sys, s, step) ensures DrawnDistinct(Do(sys, s, step)) {
        DistinctStep(sys, s, step);
      }
      NothingDrawnAtStart(sys);
      InductiveIsInvariant(sys, s => DrawnDistinct(s), s);
    }
  }

  lemma NothingDrawnAtStart(sys: System)
    ensures DrawnDistinct(Init(sys))
  {
  }

  // ----- one transaction among the first ones ------------------------------------------------------------------------

  /** A scan of a full pool takes its first k slots. */
  lemma FullPoolTakesFirst(pool: seq<Slot>, k: nat)
    requires SoundPool(pool) && AllLive(pool) && k <= |pool|
    ensures Reserve(pool, k).1.Some?
    ensures forall i :: 0 <= i < k ==> Reserve(pool, k).1.value[i] == pool[i].tx
    ensures forall i :: k <= i < |pool| ==> Reserve(pool, k).0[i] == pool[i]
  {
    hide Name, CountLive, FirstOfName, Firsts, UniqueNames, Reserve;
    ReserveTakesFirst(pool, k);
    forall i | 0 <= i <= |pool| ensures Firsts(pool, i) == i {
      FirstsAreLive(pool, i);
      AllLiveCounts(pool[..i]);
    }
    FirstsAreLive(pool, |pool|);
  }

  /** With one slot short of full, an insert fills the pool. */
  lemma OneShort(pool: seq<Slot>, tx: Transaction)
    requires CountLive(pool) == |pool| - 1
    ensures FirstEmpty(pool) < |pool| && AllLive(pool[FirstEmpty(pool) := Slot(tx, false, 0)])
  {
    hide CountLive, AllLive, FirstEmpty;
    AllLiveCounts(pool);
    FullPoolRefuses(pool);
    CountLiveUpdate(pool, FirstEmpty(pool), Slot(tx, false, 0));
    AllLiveCounts(pool[FirstEmpty(pool) := Slot(tx, false, 0)]);
  }

  lemma InsertKeepsSound(pool: seq<Slot>, tx: Transaction)
    requires SoundPool(pool) && CountLive(pool) == |pool| - 1 && Name(tx) != []
    requires FirstEmpty(pool) < |pool| && !IsLiveDuplicate(pool, FirstEmpty(pool), tx)
    ensures var j := FirstEmpty(pool);
            Insert(pool, tx) == (pool[j := Slot(tx, false, 0)], Inserted) && SoundPool(pool[j := Slot(tx, false, 0)])
  {
    hide Name, CountLive, FirstEmpty;
    OneShort(pool, tx);
    var j := FirstEmpty(pool);
    forall i | 0 <= i < |pool| && i != j ensures !pool[i].empty {
      assert pool[j := Slot(tx, false, 0)][i] == pool[i];
    }
  }

  /** A generator whose inserts are all refused goes on counting. */
  lemma {:induction false} Burn(sys: System, s: State, pid: nat, n: nat) returns (t: State)
    requires Reachable(sys, s) && AllFit(s.counters) && AllLive(s.pool)
    requires Counter(s, pid) <= n && forall c: nat :: c < n ==> Fits(pid, c)
    ensures Reachable(sys, t) && AllFit(t.counters) && t == s.(counters := t.counters)
    ensures OnlyDraws(s, t, pid) && Counter(t, pid) == n
    decreases n - Counter(s, pid)
  {
    hide Reachable, Fits, AllLive, FirstEmpty, Fresh, Name, NewTx, IsLiveDuplicate, PercentFull;
    if Counter(s, pid) == n {
      t := s;
    } else {
      FittingIsFresh(s, pid);
      FullPoolRefuses(s.pool);
      var u := Do(sys, s, Generate(pid, DRAW));
      ReachableStep(sys, s, Generate(pid, DRAW));
      t := Burn(sys, u, pid, n);
    }
  }

  /** A full pool between two blocks, with a permit to spare and nothing appended yet. */
  ghost predicate Steady(sys: System, s: State) {
    && AllLive(s.pool) && |s.pool| == sys.config.poolSize
    && MinerAt(s, 0) && s.miners[0].Waiting? && s.permits > 0 && s.pipe == [] && s.ledger == []
  }

  /** The first miner gives up, and while it does all but one of the slots that it had taken are reused. */
  lemma MakeRoom(sys: System, s: State, filler: nat, limit: nat) returns (t: State, ts: seq<Transaction>)
    requires Reachable(sys, s) && AllFit(s.counters) && Steady(sys, s)
    requires 0 < sys.config.perBlock <= sys.config.poolSize
    requires Fits(filler, limit) && Counter(s, filler) + sys.config.perBlock <= limit
    ensures Reachable(sys, t) && AllFit(t.counters) && OnlyDraws(s, t, filler)
    ensures Counter(t, filler) == Counter(s, filler) + sys.config.perBlock - 1
    ensures t == s.(pool := t.pool, occupancy := t.occupancy, permits := s.permits + sys.config.perBlock - 2,
                    counters := t.counters, born := t.born, miners := s.miners[0 := GivingUp(ts)])
    ensures |t.pool| == |s.pool| && CountLive(t.pool) == |t.pool| - 1 && FirstEmpty(t.pool) < sys.config.perBlock
  {
    hide Name, Reachable, SoundPool, CountLive, Fits, AllFit, AllLive, Reserve, FirstEmpty, Leads, LiveStay;
    var k := sys.config.perBlock;
    RunsKeepSound(sys, s);
    AllLiveCounts(s.pool);
    var u;
    u, ts := GiveUpOne(sys, s);
    LeadsReachable(sys, s, u);
    t := Fill(sys, u, filler, limit, |u.pool| - 1);
    FullPoolTakesFirst(s.pool, k);
    StaysAsLong(u.pool, t.pool);
    EmptyIsEarly(s.pool, u.pool, t.pool, k);
  }

  lemma StaysAsLong(before: seq<Slot>, after: seq<Slot>)
    requires LiveStay(before, after)
    ensures |after| == |before|
  {
  }

  lemma EmptyIsEarly(full: seq<Slot>, taken: seq<Slot>, pool: seq<Slot>, k: nat)
    requires AllLive(full) && |full| == |taken| && (forall i :: k <= i < |full| ==> taken[i] == full[i])
    requires LiveStay(taken, pool) && CountLive(pool) == |pool| - 1
    ensures FirstEmpty(pool) < k
  {
    hide CountLive;
    AllLiveCounts(pool);
    FullPoolRefuses(pool);
  }

  lemma ReturnToFull(pool: seq<Slot>, ts: seq<Transaction>)
    requires AllLive(pool)
    ensures ReturnAll(pool, ts) == pool
  {
    hide Name, Names;
    forall j | 0 <= j < |pool| ensures MakeLive(pool[j]) == pool[j] {
    }
  }

  /** The transaction in the last free slot is announced, and the miner ends its turn without changing the pool. */
  lemma Settle(sys: System, s: State) returns (t: State)
    requires AllLive(s.pool) && MinerAt(s, 0) && s.miners[0].GivingUp? && s.unposted > 0
    ensures Leads(sys, s, t)
    ensures t == s.(unposted := s.unposted - 1, permits := s.permits + 1, miners := s.miners[0 := Waiting])
  {
    hide Leads, AllLive, CountLive, ReturnAll;
    LeadsNowhere(sys, s);
    var u := Do(sys, s, Post);
    LeadsStep(sys, s, s, Post);
    ReturnToFull(u.pool, u.miners[0].transactions);
    t := Do(sys, u, GiveBack(0));
    LeadsStep(sys, s, u, GiveBack(0));
  }

  ghost predicate HasName(b: Block, name: Bytes) {
    exists i :: 0 <= i < |b.transactions| && Name(b.transactions[i]) == name
  }

  /** What MakeRoom leaves behind, when nothing that the next draw repeats is waiting. */
  ghost predicate Roomy(sys: System, s: State, pid: nat) {
    && SoundPool(s.pool) && |s.pool| == sys.config.poolSize && CountLive(s.pool) == |s.pool| - 1
    && FirstEmpty(s.pool) < sys.config.perBlock
    && (forall j :: 0 <= j < |s.pool| && !s.pool[j].empty ==> Name(s.pool[j].tx) != IdText(pid, Counter(s, pid)))
    && MinerAt(s, 0) && s.miners[0].GivingUp? && s.pipe == [] && s.ledger == []
  }

  lemma RoomIsOnePlace(sys: System, s: State, pid: nat, tx: Transaction)
    requires Roomy(sys, s, pid) && Name(tx) == IdText(pid, Counter(s, pid))
    ensures FirstEmpty(s.pool) < |s.pool|
    ensures var pool := s.pool[FirstEmpty(s.pool) := Slot(tx, false, 0)];
            Insert(s.pool, tx) == (pool, Inserted) && SoundPool(pool) && AllLive(pool)
  {
    hide Name, SoundPool, IdText, Counter, CountLive, FirstEmpty, AllLive, Insert;
    OneShort(s.pool, tx);
    InsertKeepsSound(s.pool, tx);
  }

  /** The next draw goes into the last free place and is announced. */
  lemma Offer(sys: System, s: State, pid: nat) returns (t: State)
    requires Roomy(sys, s, pid)
    ensures Leads(sys, Do(sys, s, Generate(pid, DRAW)), t)
    ensures t == s.(pool := t.pool, occupancy := t.occupancy, permits := s.permits + 1, born := t.born,
                    counters := s.counters[pid := Counter(s, pid) + 1], miners := s.miners[0 := Waiting])
    ensures SoundPool(t.pool) && AllLive(t.pool) && |t.pool| == |s.pool|
    ensures FirstEmpty(s.pool) < |t.pool| && Name(t.pool[FirstEmpty(s.pool)].tx) == IdText(pid, Counter(s, pid))
  {
    hide Name, SoundPool, IdText, NewTx, CountLive, FirstEmpty, AllLive, Insert, PercentFull, Leads;
    var tx := NewTx(pid, Counter(s, pid), DRAW);
    RoomIsOnePlace(sys, s, pid, tx);
    t := Settle(sys, Do(sys, s, Generate(pid, DRAW)));
  }

  /** And the next block, with it, is cleared by a validator. */
  lemma ClearNamed(sys: System, s: State, pid: nat, v: nat) returns (t: State)
    requires CanGrow(sys) && Roomy(sys, s, pid) && ValidatorAt(s, v) && s.validators[v].Ready?
    ensures Leads(sys, Do(sys, s, Generate(pid, DRAW)), t)
    ensures ValidatorAt(t, v) && t.validators[v].Cleared? && HasName(t.validators[v].m.block, IdText(pid, Counter(s, pid)))
    ensures t == s.(pool := t.pool, occupancy := t.occupancy, born := t.born, returned := t.returned,
                    counters := s.counters[pid := Counter(s, pid) + 1], miners := s.miners[0 := Waiting],
                    validators := s.validators[v := t.validators[v]])
    ensures |t.pool| == |s.pool| && CountLive(t.pool) == |t.pool| - sys.config.perBlock
  {
    var j, k := FirstEmpty(s.pool), sys.config.perBlock;
    hide Name, SoundPool, IdText, CountLive, FirstEmpty, AllLive, Reserve, Leads, Do, Links, Tip, Hasher, Mineable, HashHex;
    var u := Offer(sys, s, pid);
    AllLiveCounts(u.pool);
    FullPoolTakesFirst(u.pool, k);
    t := ClearOne(sys, u, v);
    LeadsOn(sys, Do(sys, s, Generate(pid, DRAW)), u, t);
    assert Name(t.validators[v].m.block.transactions[j]) == IdText(pid, Counter(s, pid));
  }

  // ----- two draws of one identifier ---------------------------------------------------------------------------------

  /** Only two generators have drawn anything. */
  ghost predicate OnlyTwo(s: State, filler: nat, pid: nat) {
    forall p: nat :: p != filler && p != pid ==> Counter(s, p) == 0
  }

  lemma TwoDraw(s: State, t: State, p: nat, filler: nat, pid: nat)
    requires OnlyTwo(s, filler, pid) && OnlyDraws(s, t, p) && (p == filler || p == pid) && filler != pid
    ensures OnlyTwo(t, filler, pid)
    ensures p == filler ==> Counter(t, pid) == Counter(s, pid)
    ensures p == pid ==> Counter(t, filler) == Counter(s, filler)
  {
    hide Counter;
  }

  ghost predicate Between(sys: System, s: State, filler: nat, most: nat, pid: nat, counter: nat) {
    && Reachable(sys, s) && AllFit(s.counters) && Steady(sys, s)
    && OnlyTwo(s, filler, pid) && Counter(s, filler) <= most && Counter(s, pid) == counter
  }

  lemma FreshIsNotLive(sys: System, s: State, pid: nat)
    requires Reachable(sys, s) && Fresh(s, pid)
    ensures forall j :: 0 <= j < |s.pool| && !s.pool[j].empty ==> Name(s.pool[j].tx) != IdText(pid, Counter(s, pid))
  {
    hide Name, Reachable, IdText, Issued;
    if IsLive(s.pool, IdText(pid, Counter(s, pid))) {
      AccountedIsIssued(sys, s, IdText(pid, Counter(s, pid)));
    }
  }

  lemma CarriedIsNotLive(sys: System, s: State, v: nat, name: Bytes)
    requires Reachable(sys, s) && ValidatorAt(s, v) && s.validators[v].Cleared? && HasName(s.validators[v].m.block, name)
    ensures forall j :: 0 <= j < |s.pool| && !s.pool[j].empty ==> Name(s.pool[j].tx) != name
  {
    hide Name, Reachable, InFlight;
    CarriedIsInFlight(s, v);
    InFlightIsReserved(sys, s, s.validators[v].m.block.transactions);
  }

  lemma DrawKeepsFit(s: State, t: State, pid: nat)
    requires AllFit(s.counters) && Fits(pid, Counter(s, pid)) && t.counters == s.counters[pid := Counter(s, pid) + 1]
    ensures AllFit(t.counters)
  {
    hide Fits;
  }

  lemma DrawIsOwn(s: State, t: State, pid: nat)
    requires t.counters == s.counters[pid := Counter(s, pid) + 1]
    ensures OnlyDraws(s, t, pid) && Counter(t, pid) == Counter(s, pid) + 1
  {
  }

  /** The generator counts on to its c-th draw while the other one keeps the pool full, and gets room for it. */
  lemma RoomForDraw(sys: System, s: State, filler: nat, most: nat, pid: nat, counter: nat, c: nat) returns (t: State)
    requires CanGrow(sys) && Between(sys, s, filler, most, pid, counter) && filler != pid
    requires Fits(filler, most + sys.config.perBlock)
    requires counter <= c && forall x: nat :: x < c ==> Fits(pid, x)
    ensures Reachable(sys, t) && AllFit(t.counters)
    ensures OnlyTwo(t, filler, pid) && Counter(t, filler) < most + sys.config.perBlock && Counter(t, pid) == c
    ensures (forall j :: 0 <= j < |t.pool| && !t.pool[j].empty ==> Name(t.pool[j].tx) != IdText(pid, c)) ==>
      Roomy(sys, t, pid)
    ensures t.validators == s.validators && t.permits + 2 == s.permits + sys.config.perBlock
    ensures |t.pool| == |s.pool| && t.ledger == s.ledger && t.pipe == s.pipe && |t.miners| == |s.miners|
  {
    hide Name, Reachable, SoundPool, OnlyDraws, OnlyTwo, Fits, AllFit, AllLive, CountLive, FirstEmpty, IdText, Counter, Mineable;
    var u := Burn(sys, s, pid, c);
    TwoDraw(s, u, pid, filler, pid);
    var ts;
    t, ts := MakeRoom(sys, u, filler, most + sys.config.perBlock);
    TwoDraw(u, t, filler, filler, pid);
    RunsKeepSound(sys, t);
  }

  lemma StartIsBetween(sys: System, filler: nat, pid: nat) returns (s: State)
    requires CanGrow(sys) && Fits(filler, 4 * sys.config.poolSize) && filler != pid
    ensures Between(sys, s, filler, sys.config.poolSize, pid, 0) && s.validators == [Ready, Ready, Ready]
  {
    hide Reachable, Fits, AllFit, AllLive, CountLive, Mineable;
    s := GetCalm(sys, filler, 4 * sys.config.poolSize);
  }

  /** The first draw is in a block past all tests. */
  ghost predicate Pending(s: State, name: Bytes) {
    && |s.validators| == 3 && s.validators[0].Cleared? && s.validators[1].Ready?
    && HasName(s.validators[0].m.block, name)
  }

  /** Then both are. */
  ghost predicate BothPending(s: State, name: Bytes) {
    && |s.validators| == 3 && s.validators[0].Cleared? && s.validators[1].Cleared?
    && HasName(s.validators[0].m.block, name) && HasName(s.validators[1].m.block, name)
  }

  lemma FirstPending(sys: System, filler: nat, pid: nat, c: nat) returns (s: State)
    requires CanGrow(sys) && Fits(filler, 4 * sys.config.poolSize) && filler != pid
    requires forall x: nat :: x <= c ==> Fits(pid, x)
    ensures Between(sys, s, filler, 3 * sys.config.poolSize, pid, c + 1) && Pending(s, IdText(pid, c))
  {
    hide Name, Reachable, OnlyDraws, OnlyTwo, Fits, AllFit, AllLive, CountLive, IdText, Counter, Mineable, Roomy, Leads,
         HasName, Do, Fresh;
    var p, k := sys.config.poolSize, sys.config.perBlock;
    var g := StartIsBetween(sys, filler, pid);
    FitsBelow(filler, p + k, 4 * p);
    var t := RoomForDraw(sys, g, filler, p, pid, 0, c);
    FittingIsFresh(t, pid);
    FreshIsNotLive(sys, t, pid);
    var e := ClearNamed(sys, t, pid, 0);
    ReachableStep(sys, t, Generate(pid, DRAW));
    LeadsReachable(sys, Do(sys, t, Generate(pid, DRAW)), e);
    DrawKeepsFit(t, e, pid);
    DrawIsOwn(t, e, pid);
    TwoDraw(t, e, pid, filler, pid);
    s := Refill(sys, e, filler, 4 * p);
    TwoDraw(e, s, filler, filler, pid);
  }

  /** Nothing stops the second draw: the first one's slot has been reused, and what is on its way or committed is not
      looked at. */
  lemma SecondPending(sys: System, s: State, filler: nat, pid: nat, c: nat, d: nat) returns (t: State)
    requires CanGrow(sys) && Fits(filler, 4 * sys.config.poolSize) && filler != pid
    requires Between(sys, s, filler, 3 * sys.config.poolSize, pid, c + 1) && Pending(s, IdText(pid, c))
    requires c < d && IdText(pid, c) == IdText(pid, d) && forall x: nat :: x < d ==> Fits(pid, x)
    ensures FreelyReachable(sys, t) && BothPending(t, IdText(pid, c))
    ensures OnlyTwo(t, filler, pid) && Counter(t, filler) <= 4 * sys.config.poolSize && Counter(t, pid) == d + 1
  {
    hide Name, Reachable, OnlyDraws, OnlyTwo, Fits, AllFit, AllLive, CountLive, IdText, Counter, Mineable, Roomy, Leads,
         HasName, Do, Fresh, FreelyReachable;
    var p, k := sys.config.poolSize, sys.config.perBlock;
    FitsBelow(filler, 3 * p + k, 4 * p);
    var u := RoomForDraw(sys, s, filler, 3 * p, pid, c + 1, d);
    CarriedIsNotLive(sys, u, 0, IdText(pid, c));
    t := ClearNamed(sys, u, pid, 1);
    ReachableIsFree(sys, u);
    FreeStep(sys, u, Generate(pid, DRAW));
    LeadsFreely(sys, Do(sys, u, Generate(pid, DRAW)), t);
    DrawIsOwn(u, t, pid);
    TwoDraw(u, t, pid, filler, pid);
  }

  // ----- exactly when --------------------------------------------------------------------------------------------------

  ghost predicate CommitsTwice(ledger: seq<Block>) {
    exists b, i, c, j ::
      && 0 <= b < |ledger| && 0 <= i < |ledger[b].transactions|
      && 0 <= c < |ledger| && 0 <= j < |ledger[c].transactions|
      && (b != c || i != j) && Name(ledger[b].transactions[i]) == Name(ledger[c].transactions[j])
  }

  lemma TwoBlocksOneName(ledger: seq<Block>, b: Block, c: Block, name: Bytes)
    requires HasName(b, name) && HasName(c, name)
    ensures CommitsTwice(ledger + [b] + [c])
  {
    hide Name;
    var i :| 0 <= i < |b.transactions| && Name(b.transactions[i]) == name;
    var j :| 0 <= j < |c.transactions| && Name(c.transactions[j]) == name;
    var all := ledger + [b] + [c];
    assert all[|ledger|] == b && all[|ledger| + 1] == c;
  }

  lemma BothAppend(sys: System, s: State, name: Bytes) returns (t: State)
    requires FreelyReachable(sys, s) && BothPending(s, name)
    ensures FreelyReachable(sys, t) && t.counters == s.counters && CommitsTwice(t.ledger)
  {
    hide FreelyReachable, HasName, CommitsTwice;
    var u := Do(sys, s, Append(0));
    FreeStep(sys, s, Append(0));
    t := Do(sys, u, Append(1));
    FreeStep(sys, u, Append(1));
    TwoBlocksOneName(s.ledger, s.validators[0].m.block, s.validators[1].m.block, name);
  }

  lemma {:induction false} NothingMovesFreely(sys: System, s: State, steps: seq<Step>)
    requires NothingMoves(sys, s) && FreeRuns(sys, s, steps) && sys.config.perBlock > sys.config.poolSize
    ensures NothingMoves(sys, FreeAfter(sys, s, steps))
    decreases |steps|
  {
    hide Possible, Do, NothingMoves;
    if steps != [] {
      NothingMovesStep(sys, s, steps[0]);
      NothingMovesFreely(sys, Do(sys, s, steps[0]), steps[1..]);
    }
  }

  lemma SmallPoolCommitsNothing(sys: System, s: State)
    requires FreelyReachable(sys, s) && sys.config.perBlock > sys.config.poolSize
    ensures s.ledger == []
  {
    hide FreeRuns, FreeAfter, Init, InFlight;
    var steps :| FreeRuns(sys, Init(sys), steps) && FreeAfter(sys, Init(sys), steps) == s;
    NothingMovesAtStart(sys);
    NothingMovesFreely(sys, Init(sys), steps);
  }

  /** No generator has drawn more than its share. */
  ghost predicate Within(s: State, shares: map<nat, nat>) {
    forall p: nat :: Counter(s, p) > 0 ==> p in shares && Counter(s, p) <= shares[p]
  }

  /** Every share's identifiers are untruncated. */
  ghost predicate SharesFit(shares: map<nat, nat>) {
    forall p: nat :: p in shares && shares[p] > 0 ==> Fits(p, shares[p] - 1)
  }

  lemma FittingAreDistinct(s: State, shares: map<nat, nat>)
    requires Within(s, shares) && SharesFit(shares)
    ensures DrawnDistinct(s)
  {
    hide Fits, IdText, Counter;
    forall p: nat, c: nat, q: nat, d: nat | Drawn(s, p, c) && Drawn(s, q, d) && IdText(p, c) == IdText(q, d)
      ensures p == q && c == d
    {
      FitsBelow(p, c, shares[p] - 1);
      FitsBelow(q, d, shares[q] - 1);
      IdsAreFresh(p, c, q, d);
    }
  }

  ghost predicate DoublesWithin(sys: System, s: State, shares: map<nat, nat>) {
    FreelyReachable(sys, s) && Within(s, shares) && CommitsTwice(s.ledger)
  }

  /** With every generator's draws bounded by a share, and one generator that can keep the pool full, some run of the
      program commits an identifier twice if and only if a block fits into the pool and the share of some generator
      goes beyond the identifiers that its field can hold. */
  lemma DoubleCommitIff(sys: System, shares: map<nat, nat>, filler: nat)
    requires ValidConfig(sys.config) && Mineable(sys.h, sys.config.perBlock)
    requires forall p: nat :: p in shares ==> |Dec(p)| <= 10
    requires filler in shares && Fits(filler, shares[filler]) && 4 * sys.config.poolSize <= shares[filler]
    ensures (exists s :: DoublesWithin(sys, s, shares)) <==> sys.config.perBlock <= sys.config.poolSize && !SharesFit(shares)
  {
    hide Fits, FreelyReachable, Within, SharesFit, CommitsTwice, Mineable;
    if sys.config.perBlock > sys.config.poolSize {
      forall s ensures !DoublesWithin(sys, s, shares) {
        if FreelyReachable(sys, s) {
          SmallPoolCommitsNothing(sys, s);
          EmptyCommitsNothing();
        }
      }
    } else if SharesFit(shares) {
      forall s ensures !DoublesWithin(sys, s, shares) {
        if FreelyReachable(sys, s) && Within(s, shares) {
          FittingAreDistinct(s, shares);
          DistinctCommitsOnce(sys, s);
        }
      }
    } else {
      var s := SomeDouble(sys, shares, filler);
    }
  }

  lemma EmptyCommitsNothing()
    ensures !CommitsTwice([])
  {
  }

  /** While the identifiers drawn are different the program commits none twice, cut or not. */
  lemma DistinctCommitsOnce(sys: System, s: State)
    requires FreelyReachable(sys, s) && DrawnDistinct(s)
    ensures !CommitsTwice(s.ledger)
  {
    hide Name, FreelyReachable, Reachable, DrawnDistinct;
    DistinctIsReachable(sys, s);
    NoDoubleCommit(sys, s);
  }

  lemma UnfitShare(shares: map<nat, nat>, filler: nat) returns (pid: nat)
    requires !SharesFit(shares) && filler in shares && Fits(filler, shares[filler])
    ensures pid in shares && shares[pid] > 0 && !Fits(pid, shares[pid] - 1) && filler != pid
  {
    hide Fits;
    pid :| pid in shares && shares[pid] > 0 && !Fits(pid, shares[pid] - 1);
    if pid == filler {
      FitsBelow(filler, shares[filler] - 1, shares[filler]);
    }
  }

  lemma TwoWithin(s: State, shares: map<nat, nat>, filler: nat, pid: nat)
    requires OnlyTwo(s, filler, pid) && filler in shares && pid in shares
    requires Counter(s, filler) <= shares[filler] && Counter(s, pid) <= shares[pid]
    ensures Within(s, shares)
  {
    hide Counter;
  }

  lemma SomeDouble(sys: System, shares: map<nat, nat>, filler: nat) returns (s: State)
    requires CanGrow(sys) && !SharesFit(shares) && forall p: nat :: p in shares ==> |Dec(p)| <= 10
    requires filler in shares && Fits(filler, shares[filler]) && 4 * sys.config.poolSize <= shares[filler]
    ensures DoublesWithin(sys, s, shares)
  {
    hide Fits, SharesFit, CanGrow, OnlyTwo, Within, IdText, FreelyReachable, CommitsTwice, Between, BothPending, Pending;
    var pid := UnfitShare(shares, filler);
    FitsBelow(filler, 4 * sys.config.poolSize, shares[filler]);
    var c, d := FirstRepeat(pid, shares[pid] - 1);
    var a := FirstPending(sys, filler, pid, c);
    var b := SecondPending(sys, a, filler, pid, c, d);
    s := BothAppend(sys, b, IdText(pid, c));
    TwoWithin(b, shares, filler, pid);
    SameWithin(b, s, shares);
  }

  lemma SameWithin(s: State, t: State, shares: map<nat, nat>)
    requires Within(s, shares) && t.counters == s.counters
    ensures Within(t, shares)
  {
    assert forall p: nat :: Counter(t, p) == Counter(s, p);
  }
}
