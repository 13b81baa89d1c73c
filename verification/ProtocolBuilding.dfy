/** How the runs of the scenarios are put together: generators fill the pool, the first miner sends a
    block, validators take it through their tests. */
module ProtocolBuilding {
  import opened Bytes
  import opened Data
  import opened Sums
  import opened TxIds
  import opened Pow
  import opened Chain
  import opened PoolSpec
  import opened Protocol
  import opened ProtocolSafety
  import opened ProtocolStalls
  import opened ProtocolWakeups
  import opened Mining
  import opened Validating

  const DRAW: Draw := Draw(1, 0, 0, Zeros(16))

  // ----- hashes a miner can work with --------------------------------------------------------------------------

  /** The search of the first miner's draft with this time succeeds, and not with the fixed first hash. */
  ghost predicate Serves(h: HashFn, blockId: nat, tip: HexHash, now: int, ts: seq<Transaction>) {
    var draft := NewBlock(1, blockId, tip, now, ts);
    && !Fails(h, draft)
    && forall n: uint32 :: Finds(h, draft, n) ==> HashHex(h, draft.(nonce := n)) != INITIAL_HASH
  }

  ghost predicate SomeTimeServes(h: HashFn, blockId: nat, tip: HexHash, ts: seq<Transaction>) {
    exists now: int :: Serves(h, blockId, tip, now, ts)
  }

  /** Whatever k transactions the first miner holds, some time serves. */
  ghost predicate Mineable(h: HashFn, k: nat) {
    forall blockId: nat, tip: HexHash, ts: seq<Transaction> :: |ts| == k ==> SomeTimeServes(h, blockId, tip, ts)
  }

  /** Such hashes exist. */
  lemma SomeHashServes(k: nat) returns (h: HashFn)
    ensures Mineable(h, k)
  {
    hide Serves;
    h := (_: Bytes) => Zeros(32);
    forall blockId: nat, tip: HexHash, ts: seq<Transaction> ensures SomeTimeServes(h, blockId, tip, ts) {
      ZerosServe(h, blockId, tip, ts);
    }
  }

  lemma ZerosServe(h: HashFn, blockId: nat, tip: HexHash, ts: seq<Transaction>)
    requires forall s :: h(s) == Zeros(32)
    ensures Serves(h, blockId, tip, 0, ts)
  {
    hide NewBlock, Finds, Accepts, HashHex;
    var draft := NewBlock(1, blockId, tip, 0, ts);
    forall n: uint32 ensures Accepts(h, draft.(nonce := n)) && HashHex(h, draft.(nonce := n)) != INITIAL_HASH {
      ZerosAreAccepted(h, draft.(nonce := n));
    }
    assert AcceptsWith(h, draft, 0);
  }

  lemma ZerosAreAccepted(h: HashFn, b: Block)
    requires forall s :: h(s) == Zeros(32)
    ensures Accepts(h, b) && HashHex(h, b) != INITIAL_HASH
  {
    hide Serialization.Serialize, MaxReward;
    var d := Zeros(32);
    forall i | 0 <= i < 64 ensures Hex(d)[i] == ZERO_CHAR {
      assert Nibble(d, i) == 0;
    }
    InitialIsNotZeros();
  }

  lemma InitialIsNotZeros()
    ensures INITIAL_HASH[4] != ZERO_CHAR
  {
    var first := "00006a8e76f31ba7";
    assert first[4] == '6';
    assert (first + "4e21a092cca1015a" + "418c9d5f4375e7a4" + "fec676e1d2ec1436")[4] == first[4];
    assert INITIAL_HASH[4] == '6' as int;
  }

  lemma MineDraft(h: HashFn, blockId: nat, tip: HexHash, ts: seq<Transaction>) returns (now: int, b: Block)
    requires Mineable(h, |ts|)
    ensures IsMined(h, NewBlock(1, blockId, tip, now, ts), NewBlock(1, blockId, tip, now, ts), b)
    ensures HashHex(h, b) != INITIAL_HASH
  {
    hide Accepts, Finds, Fails, HashHex, NewBlock;
    assert SomeTimeServes(h, blockId, tip, ts);
    now :| Serves(h, blockId, tip, now, ts);
    var draft := NewBlock(1, blockId, tip, now, ts);
    SearchIsDecided(h, draft);
    var n: nat :| Finds(h, draft, n);
    NonceFits(h, draft, n);
    b := draft.(nonce := n);
  }

  // ----- runs from one state to another ------------------------------------------------------------------------

  ghost predicate Leads(sys: System, s: State, t: State) {
    exists steps :: Runs(sys, s, steps) && After(sys, s, steps) == t
  }

  lemma LeadsNowhere(sys: System, s: State)
    ensures Leads(sys, s, s)
  {
    assert Runs(sys, s, []) && After(sys, s, []) == s;
  }

  lemma LeadsOn(sys: System, s: State, t: State, u: State)
    requires Leads(sys, s, t) && Leads(sys, t, u)
    ensures Leads(sys, s, u)
  {
    hide Runs, After;
    var a :| Runs(sys, s, a) && After(sys, s, a) == t;
    var b :| Runs(sys, t, b) && After(sys, t, b) == u;
    RunsAppend(sys, s, a, b);
  }

  lemma LeadsStep(sys: System, s: State, t: State, step: Step)
    requires Leads(sys, s, t) && Enabled(sys, t, step)
    ensures Leads(sys, s, Do(sys, t, step))
  {
    hide Enabled, Possible, Do;
    FirstStep(sys, t, step, []);
    assert Leads(sys, t, Do(sys, t, step));
    LeadsOn(sys, s, t, Do(sys, t, step));
  }

  lemma LeadsReachable(sys: System, s: State, t: State)
    requires Reachable(sys, s) && Leads(sys, s, t)
    ensures Reachable(sys, t)
  {
    hide Reachable, Runs, After;
    var steps :| Runs(sys, s, steps) && After(sys, s, steps) == t;
    ReachableAfter(sys, s, steps);
  }

  // ----- filling the pool ----------------------------------------------------------------------------------

  lemma {:induction false} AllLiveCounts(pool: seq<Slot>)
    ensures AllLive(pool) <==> CountLive(pool) == |pool|
  {
    if pool != [] {
      AllLiveCounts(pool[..|pool| - 1]);
      SumWithin(pool[..|pool| - 1], LiveOne);
    }
  }

  lemma FitsBelow(pid: nat, c: nat, limit: nat)
    requires Fits(pid, limit) && c <= limit
    ensures Fits(pid, c)
  {
    DecLengthGrows(c, limit);
  }

  /** All identifiers drawn so far are untruncated. */
  ghost predicate AllFit(counters: map<nat, nat>) {
    forall p: nat, c: nat :: p in counters && c < counters[p] ==> Fits(p, c)
  }

  /** Then the next one is new if it is untruncated as well. */
  lemma FittingIsFresh(s: State, pid: nat)
    requires AllFit(s.counters) && Fits(pid, Counter(s, pid))
    ensures Fresh(s, pid)
  {
    hide Fits, IdText;
    if p: nat, c: nat :| p in s.counters && c < s.counters[p] && IdText(pid, Counter(s, pid)) == IdText(p, c) {
      IdsAreFresh(pid, Counter(s, pid), p, c);
    }
  }

  /** All generators but this one have drawn as many in both states. */
  ghost predicate OnlyDraws(s: State, t: State, pid: nat) {
    forall p: nat :: p != pid ==> Counter(t, p) == Counter(s, p)
  }

  lemma FullIsHundred(pool: seq<Slot>)
    requires AllLive(pool) && pool != []
    ensures PercentFull(pool) == 100
  {
    AllLiveCounts(pool);
    hide CountLive;
    Hundred(|pool|);
  }

  lemma Hundred(n: nat)
    requires n > 0
    ensures n * 100 / n == 100
  {
  }

  /** One generator inserts until n slots are live. */
  lemma {:induction false} Fill(sys: System, s: State, pid: nat, limit: nat, n: nat) returns (t: State)
    requires Reachable(sys, s) && AllFit(s.counters) && Fits(pid, limit)
    requires CountLive(s.pool) <= n <= |s.pool| && Counter(s, pid) + n - CountLive(s.pool) <= limit
    ensures Reachable(sys, t) && AllFit(t.counters) && CountLive(t.pool) == n && LiveStay(s.pool, t.pool)
    ensures t == s.(pool := t.pool, occupancy := t.occupancy, permits := s.permits + n - CountLive(s.pool),
                    counters := t.counters, born := t.born)
    ensures OnlyDraws(s, t, pid) && Counter(t, pid) == Counter(s, pid) + n - CountLive(s.pool)
    ensures if CountLive(s.pool) < n then t.occupancy == PercentFull(t.pool) else t == s
    decreases n - CountLive(s.pool)
  {
    hide Reachable, Fits, CountLive, PercentFull, AllLive, Fresh, Runs, After;
    if CountLive(s.pool) == n {
      t := s;
    } else {
      AllLiveCounts(s.pool);
      FitsBelow(pid, Counter(s, pid), limit);
      FittingIsFresh(s, pid);
      var steps := InsertAndPost(sys, s, pid, DRAW);
      var u := After(sys, s, steps);
      ReachableAfter(sys, s, steps);
      t := Fill(sys, u, pid, limit, n);
    }
  }

  /** One generator inserts until every slot is live. */
  lemma Refill(sys: System, s: State, pid: nat, limit: nat) returns (t: State)
    requires Reachable(sys, s) && AllFit(s.counters)
    requires Fits(pid, limit) && Counter(s, pid) + |s.pool| <= limit + CountLive(s.pool)
    ensures Reachable(sys, t) && AllFit(t.counters) && AllLive(t.pool) && LiveStay(s.pool, t.pool)
    ensures t == s.(pool := t.pool, occupancy := t.occupancy, permits := s.permits + |s.pool| - CountLive(s.pool),
                    counters := t.counters, born := t.born)
    ensures OnlyDraws(s, t, pid) && Counter(t, pid) == Counter(s, pid) + |s.pool| - CountLive(s.pool)
    ensures t.occupancy == if CountLive(s.pool) < |s.pool| then 100 else s.occupancy
  {
    hide Reachable, AllFit, OnlyDraws, Fits, CountLive, PercentFull, AllLive;
    t := Fill(sys, s, pid, limit, |s.pool|);
    AllLiveCounts(t.pool);
    if CountLive(s.pool) < |s.pool| {
      FullIsHundred(t.pool);
    }
  }

  // ----- a block on its way ------------------------------------------------------------------------------------

  /** What every run keeps of the names in its pool. */
  ghost predicate SoundPool(pool: seq<Slot>) {
    && UniqueNames(pool) && UniqueLiveNames(pool)
    && forall j :: 0 <= j < |pool| && !pool[j].empty ==> Name(pool[j].tx) != []
  }

  lemma RunsKeepSound(sys: System, s: State)
    requires Reachable(sys, s)
    ensures sys.config.perBlock > 0 && SoundPool(s.pool)
  {
    hide Name, Reachable, UniqueNames, UniqueLiveNames;
    PoolIsSound(sys, s);
  }

  lemma SelectsEnough(pool: seq<Slot>, k: nat)
    requires SoundPool(pool) && CountLive(pool) >= k
    ensures Reserve(pool, k).1.Some? && CountLive(Reserve(pool, k).0) == CountLive(pool) - k
    ensures AllFound(Reserve(pool, k).0, Reserve(pool, k).1.value)
  {
    hide Name, CountLive, Picked, UniqueNames, UniqueLiveNames, AllFound, Mark;
    PickedLength(pool, k);
    ReserveRemovesK(pool, k);
    ReservedAreFound(pool, k);
  }

  ghost predicate CanSend(sys: System, s: State) {
    && SoundPool(s.pool) && sys.config.perBlock > 0 && CountLive(s.pool) >= sys.config.perBlock
    && MinerAt(s, 0) && s.miners[0].Waiting? && s.permits > 0 && s.pipe == []
  }

  /** The first miner wakes, mines and sends. */
  lemma SendOne(sys: System, s: State) returns (t: State, b: Block)
    requires CanSend(sys, s) && Mineable(sys.h, sys.config.perBlock)
    ensures Leads(sys, s, t)
    ensures t == s.(pool := t.pool, permits := s.permits - 1, pipe := [Message(1, b)], returned := t.returned)
    ensures (t.pool, Some(b.transactions)) == Reserve(s.pool, sys.config.perBlock)
    ensures CountLive(t.pool) == CountLive(s.pool) - sys.config.perBlock && AllFound(t.pool, b.transactions)
    ensures Accepts(sys.h, b) && Links(b, Tip(Hasher(sys.h), s.ledger)) && HashHex(sys.h, b) != INITIAL_HASH
  {
    hide Name, SoundPool, CountLive, Reserve, ReturnAll, Accepts, Finds, Fails, HashHex, Mineable,
         NewBlock, Tip, Hasher, Links, AllFound, IsMined, INITIAL_HASH, Leads, Runs, After;
    var k := sys.config.perBlock;
    SelectsEnough(s.pool, k);
    var (after, got) := Reserve(s.pool, k);
    var tip := Tip(Hasher(sys.h), s.ledger);
    var now;
    now, b := MineDraft(sys.h, |s.ledger|, tip, got.value);
    MinedBlockIsGood(sys.h, 1, |s.ledger|, tip, now, now, got.value, b);
    var u := Do(sys, s, Wake(0));
    LeadsNowhere(sys, s);
    LeadsStep(sys, s, s, Wake(0));
    var steps := TurnIsRun(sys, u, 0, now, now, true, Sent(b), after);
    t := After(sys, u, steps);
    LeadsAfter(sys, u, steps);
    LeadsOn(sys, s, u, t);
    assert s.miners[0 := Woken][0 := Waiting] == s.miners;
  }

  lemma LeadsAfter(sys: System, s: State, steps: seq<Step>)
    requires Runs(sys, s, steps)
    ensures Leads(sys, s, After(sys, s, steps))
  {
    hide Runs, After;
  }

  /** A validator takes the one message in the pipe and finds its proof of work and link right ... */
  lemma LinkSent(sys: System, s: State, v: nat, m: Message) returns (t: State)
    requires s.pipe == [m] && ValidatorAt(s, v) && s.validators[v].Ready?
    requires 0 < |m.block.transactions| <= sys.config.perBlock
    requires Accepts(sys.h, m.block) && Links(m.block, Tip(Hasher(sys.h), s.ledger))
    ensures Leads(sys, s, t)
    ensures t == s.(pipe := [], validators := s.validators[v := Linked(m)])
  {
    hide Leads, Accepts, Links, Tip, Hasher;
    LeadsNowhere(sys, s);
    var a := Do(sys, s, Receive(v));
    LeadsStep(sys, s, s, Receive(v));
    t := Do(sys, a, CheckLink(v));
    LeadsStep(sys, s, a, CheckLink(v));
  }

  /** ... and its transactions and the capacity as well. */
  lemma ClearSent(sys: System, s: State, v: nat, m: Message) returns (t: State)
    requires s.pipe == [m] && ValidatorAt(s, v) && s.validators[v].Ready?
    requires 0 < |m.block.transactions| <= sys.config.perBlock
    requires Accepts(sys.h, m.block) && Links(m.block, Tip(Hasher(sys.h), s.ledger)) && AllFound(s.pool, m.block.transactions)
    ensures Leads(sys, s, t)
    ensures t == s.(pipe := [], returned := t.returned,
                    validators := s.validators[v := if |s.ledger| < sys.config.maxBlocks then Cleared(m) else Refused(m)])
  {
    hide Name, Leads, Accepts, Links, Tip, Hasher, AllFound, Check, Revived;
    CheckMeansAllFound(s.pool, m.block.transactions);
    var b := LinkSent(sys, s, v, m);
    var c := Do(sys, b, CheckPool(v));
    LeadsStep(sys, s, b, CheckPool(v));
    t := Do(sys, c, CheckCapacity(v));
    LeadsStep(sys, s, c, CheckCapacity(v));
  }

  /** The validator is past its tests with a block for this tip that does not hash to the fixed first hash. */
  ghost predicate ClearedFor(sys: System, s: State, v: nat, tip: HexHash) {
    && ValidatorAt(s, v) && s.validators[v].Cleared?
    && Links(s.validators[v].m.block, tip) && HashHex(sys.h, s.validators[v].m.block) != INITIAL_HASH
  }

  lemma ClearOne(sys: System, s: State, v: nat) returns (t: State)
    requires CanSend(sys, s) && Mineable(sys.h, sys.config.perBlock)
    requires ValidatorAt(s, v) && s.validators[v].Ready? && |s.ledger| < sys.config.maxBlocks
    ensures Leads(sys, s, t) && ClearedFor(sys, t, v, Tip(Hasher(sys.h), s.ledger))
    ensures t == s.(pool := t.pool, permits := s.permits - 1, returned := t.returned,
                    validators := s.validators[v := t.validators[v]])
    ensures (t.pool, Some(t.validators[v].m.block.transactions)) == Reserve(s.pool, sys.config.perBlock)
    ensures CountLive(t.pool) == CountLive(s.pool) - sys.config.perBlock
  {
    hide Leads, SoundPool, Accepts, Links, Tip, Hasher, HashHex, AllFound, CountLive, Reserve, Mineable;
    var u, b := SendOne(sys, s);
    t := ClearSent(sys, u, v, Message(1, b));
    LeadsOn(sys, s, u, t);
  }

  /** A cleared validator appends, cleans up and reports. */
  lemma FinishOne(sys: System, s: State, v: nat) returns (t: State)
    requires ValidatorAt(s, v) && s.validators[v].Cleared?
    ensures Leads(sys, s, t)
    ensures t == s.(pool := t.pool, occupancy := t.occupancy, ledger := s.ledger + [s.validators[v].m.block],
                    accepted := t.accepted, queue := t.queue, validators := s.validators[v := Ready])
    ensures |t.pool| == |s.pool| && CountLive(t.pool) <= CountLive(s.pool)
  {
    hide Leads, CountLive, PoolSpec.Remove, PercentFull, RewardSum;
    var ts := s.validators[v].m.block.transactions;
    RemoveNeverRevives(s.pool, ts);
    LeadsNowhere(sys, s);
    var a := Do(sys, s, Append(v));
    LeadsStep(sys, s, s, Append(v));
    var b := Do(sys, a, Step.Remove(v));
    LeadsStep(sys, s, a, Step.Remove(v));
    t := Do(sys, b, Report(v, 0.0));
    LeadsStep(sys, s, b, Report(v, 0.0));
  }

  /** The first miner's search or its sending fails, under any hash. */
  lemma GiveUpOne(sys: System, s: State) returns (t: State, ts: seq<Transaction>)
    requires SoundPool(s.pool) && sys.config.perBlock > 0 && CountLive(s.pool) >= sys.config.perBlock
    requires MinerAt(s, 0) && s.miners[0].Waiting? && s.permits > 0
    ensures Leads(sys, s, t)
    ensures t == s.(pool := t.pool, permits := s.permits - 1, miners := s.miners[0 := GivingUp(ts)])
    ensures (t.pool, Some(ts)) == Reserve(s.pool, sys.config.perBlock)
    ensures CountLive(t.pool) == CountLive(s.pool) - sys.config.perBlock
  {
    hide Leads, SoundPool, CountLive, Reserve, AllFound, Finds, Fails, NewBlock, Tip, Hasher;
    SelectsEnough(s.pool, sys.config.perBlock);
    ts := Reserve(s.pool, sys.config.perBlock).1.value;
    LeadsNowhere(sys, s);
    var a := Do(sys, s, Wake(0));
    LeadsStep(sys, s, s, Wake(0));
    var b := Do(sys, a, ReadTip(0));
    LeadsStep(sys, s, a, ReadTip(0));
    var c := Do(sys, b, Select(0));
    LeadsStep(sys, s, b, Select(0));
    t := StopMining(sys, s, c);
  }

  lemma StopMining(sys: System, s: State, c: State) returns (t: State)
    requires Leads(sys, s, c) && MinerAt(c, 0) && c.miners[0].Reserved?
    ensures Leads(sys, s, t) && t == SetMiner(c, 0, GivingUp(c.miners[0].transactions))
  {
    hide Leads, Finds, Fails, NewBlock;
    if Fails(sys.h, Draft(c, 0, 0)) {
      t := Do(sys, c, MineFails(0, 0, 0));
      LeadsStep(sys, s, c, MineFails(0, 0, 0));
    } else {
      var mine := SomeMine(sys, c, 0, 0, 0);
      var u := Do(sys, c, mine);
      LeadsStep(sys, s, c, mine);
      t := Do(sys, u, SendFails(0));
      LeadsStep(sys, s, u, SendFails(0));
    }
  }

  // ----- the state that most scenarios start from ----------------------------------------------------------------

  /** Between blocks: both extra validators exist already, so that the occupancy asks for no other; nothing
      is on its way, and filling the pool will leave a permit. */
  ghost predicate Calm(sys: System, s: State) {
    && Reachable(sys, s) && AllFit(s.counters)
    && MinerAt(s, 0) && s.miners[0].Waiting? && s.pipe == []
    && s.validators == [Ready, Ready, Ready] && s.active == 3
    && |s.pool| == sys.config.poolSize && CountLive(s.pool) < s.permits + |s.pool|
    && s.refused == []
  }

  /** The first pool is filled, and the first validator forks twice. */
  lemma GetCalm(sys: System, pid: nat, limit: nat) returns (s: State)
    requires ValidConfig(sys.config) && Fits(pid, limit) && sys.config.poolSize <= limit
    ensures Calm(sys, s) && s.ledger == [] && AllLive(s.pool) && s.permits > 0
    ensures OnlyDraws(Init(sys), s, pid) && Counter(s, pid) == sys.config.poolSize
  {
    hide Reachable, CountLive, Fits, AllLive;
    var start := Init(sys);
    StartIsReachable(sys);
    NothingLiveAtStart(sys);
    var r := Refill(sys, start, pid, limit);
    AllLiveCounts(r.pool);
    s := ForkTwice(sys, r);
  }

  lemma NothingLiveAtStart(sys: System)
    ensures CountLive(Init(sys).pool) == 0
  {
    SumZero(Init(sys).pool, LiveOne);
  }

  lemma ForkTwice(sys: System, s: State) returns (t: State)
    requires Reachable(sys, s) && s.validators == [Ready] && s.active == 1 && s.occupancy == 100
    ensures Reachable(sys, t) && t == s.(validators := [Ready, Ready, Ready], active := 3)
  {
    hide Reachable;
    var a := Do(sys, s, Fork);
    ReachableStep(sys, s, Fork);
    t := Do(sys, a, Fork);
    ReachableStep(sys, a, Fork);
  }
}
