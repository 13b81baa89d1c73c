/** The whole system as a state machine. A step is one mutex-protected section, one semaphore or
    queue operation, or one purely local stretch of a process; any process may take the next
    step. The pool sections are the functions of PoolSpec that the TransactionPool methods are
    proved to compute. */
module Protocol {
  import opened Bytes
  import opened Data
  import opened TxIds
  import opened Pow
  import opened Chain
  import opened PoolSpec
  import opened Statistics
  import opened Sums

  datatype System = System(config: Config, h: HashFn)

  /** read_config's test. */
  predicate ValidConfig(c: Config) {
    c.numMiners > 0 && c.poolSize > 0 && c.perBlock > 0 && c.maxBlocks > 0
  }

  /** miner_thread_function. `blockId` is the ledger length it saw. */
  datatype Miner =
    | Waiting
    | Woken
    | HasTip(previous: HexHash, blockId: nat)
    | Reserved(previous: HexHash, blockId: nat, transactions: seq<Transaction>)
    | Mined(block: Block)
    | GivingUp(transactions: seq<Transaction>)

  /** One iteration of validator_main's loop. */
  datatype Validator =
    | Ready
    | Received(m: Message)
    | Linked(m: Message)               // proof of work and previous hash were right
    | Checked(m: Message)              // all transactions were found
    | Cleared(m: Message)              // the ledger was not full
    | Refused(m: Message)              // the ledger was full
    | Appended(m: Message)
    | Reporting(m: Message, valid: bool)
    | Exited

  /** `permits` is work_notification_sem, `unposted` the inserts whose post is still to come,
      `counters` the generators' transaction_counter by process id, `active` the main
      validator's active_validators. The last four fields are history that no step reads: how many
      slots were made live by returns, the messages whose block was appended, those refused for a full
      ledger, and each transaction as it was when it was inserted. */
  datatype State = State(
    pool: seq<Slot>, occupancy: nat, permits: nat, unposted: nat, counters: map<nat, nat>,
    ledger: seq<Block>, pipe: seq<Message>,
    miners: seq<Miner>, validators: seq<Validator>, active: nat,
    queue: seq<StatMsg>, tallies: seq<Tally>,
    returned: nat, accepted: seq<Message>, refused: seq<Message>, born: map<Bytes, Transaction>)

  /** What rand(), time() and the stack contribute to a generated transaction. */
  datatype Draw = Draw(reward: int, value: uint32, timestamp: int, stack: TxIdField)

  datatype Step =
    | Generate(pid: nat, draw: Draw)
    | Post
    | Wake(i: nat)
    | ReadTip(i: nat)
    | Select(i: nat)
    | Mine(i: nat, now: int, retry: int, nonce: uint32)
    | MineFails(i: nat, now: int, retry: int)
    | Send(i: nat)
    | SendFails(i: nat)
    | GiveBack(i: nat)
    | Receive(v: nat)
    | CheckLink(v: nat)
    | CheckPool(v: nat)
    | CheckCapacity(v: nat)
    | Append(v: nat)
    | Remove(v: nat)
    | GiveBackRefused(v: nat)
    | Report(v: nat, elapsed: real)
    | Age(v: nat)
    | Fork
    | Exit(v: nat)
    | Collect

  function Init(sys: System): State {
    State(seq(sys.config.poolSize, _ => Slot(ZERO_TX, true, 0)), 0, 0, 0, map[],
          [], [], seq(sys.config.numMiners, _ => Waiting), [Ready], 1,
          [], seq(sys.config.numMiners, _ => ZERO), 0, [], [], map[])
  }

  function Counter(s: State, pid: nat): nat {
    if pid in s.counters then s.counters[pid] else 0
  }

  function NewTx(pid: nat, counter: nat, d: Draw): (t: Transaction)
    ensures Name(t) == IdText(pid, counter)
    ensures t.reward == d.reward && t.value == d.value && t.timestamp == d.timestamp
  {
    Transaction(IdField(pid, counter, d.stack), d.reward, d.value, d.timestamp)
  }

  /** snprintf "BLOCK-miner-block" into the zeroed 64-byte field. */
  function BlockIdField(miner: nat, blockId: nat): BlockIdField {
    var text := Ascii("BLOCK-") + Dec(miner) + [DASH] + Dec(blockId);
    var cut := if |text| < TXB_ID_LEN then text else text[..TXB_ID_LEN - 1];
    cut + Zeros(TXB_ID_LEN - |cut|)
  }

  lemma BlockIdText(minerId: nat, blockId: nat)
    requires |Dec(minerId)| + |Dec(blockId)| <= 56
    ensures CString(BlockIdField(minerId, blockId)) == Ascii("BLOCK-") + Dec(minerId) + Ascii("-") + Dec(blockId)
  {
    hide Dec;
    var text := Ascii("BLOCK-") + Dec(minerId) + Ascii("-") + Dec(blockId);
    assert Ascii("-") == [DASH];
    CStringOfTerminated(text, Zeros(TXB_ID_LEN - |text| - 1));
    assert BlockIdField(minerId, blockId) == text + [0] + Zeros(TXB_ID_LEN - |text| - 1);
  }

  /** "BLOCK-", the miner's number, a dash, the ledger length; with numbers of an int's size all of it fits. */
  lemma BlockIdReads(miner: nat, blockId: nat)
    requires |Dec(miner)| + |Dec(blockId)| <= 56
    ensures var s, i := CString(BlockIdField(miner, blockId)), 6 + |Dec(miner)|;
            && |s| == 7 + |Dec(miner)| + |Dec(blockId)|
            && s[..6] == ['B' as int, 'L' as int, 'O' as int, 'C' as int, 'K' as int, '-' as int]
            && Number(s[6..i]) == miner && s[i] == '-' as int && Number(s[i + 1..]) == blockId
  {
    hide Dec, Number, BlockIdField;
    BlockIdText(miner, blockId);
    var s, i := CString(BlockIdField(miner, blockId)), 6 + |Dec(miner)|;
    assert s[..6] == Ascii("BLOCK-") && s[6..i] == Dec(miner) && s[i + 1..] == Dec(blockId);
    DecReads(miner);
    DecReads(blockId);
  }

  /** create_block. */
  function NewBlock(miner: nat, blockId: nat, previous: HexHash, now: int, ts: seq<Transaction>): Block {
    Block(BlockIdField(miner, blockId), InField(previous), now, 0, ts)
  }

  function RewardSum(ts: seq<Transaction>): int {
    if ts == [] then 0 else RewardSum(ts[..|ts| - 1]) + ts[|ts| - 1].reward
  }

  /** The sum of the reward fields. */
  lemma {:induction false} RewardSumMeans(ts: seq<Transaction>)
    ensures RewardSum(ts) == Sum(ts, (t: Transaction) => t.reward)
  {
    if ts != [] {
      RewardSumMeans(ts[..|ts| - 1]);
    }
  }

  /** It is the reward of a single transaction, and adds up over parts. */
  lemma RewardSumAdds(t: Transaction, a: seq<Transaction>, b: seq<Transaction>)
    ensures RewardSum([t]) == t.reward && RewardSum(a + b) == RewardSum(a) + RewardSum(b)
  {
    hide RewardSum;
    RewardSumMeans([t]);
    RewardSumMeans(a);
    RewardSumMeans(b);
    RewardSumMeans(a + b);
    SumConcat(a, b, (t: Transaction) => t.reward);
    assert [t][..0] == [];
  }

  // ----- one step ------------------------------------------------------------------------------

  predicate MinerAt(s: State, i: nat) { i < |s.miners| }
  predicate ValidatorAt(s: State, v: nat) { v < |s.validators| }

  /** The block a miner works on before any nonce is tried. */
  function Draft(s: State, i: nat, now: int): Block
    requires MinerAt(s, i) && s.miners[i].Reserved?
  {
    NewBlock(i + 1, s.miners[i].blockId, s.miners[i].previous, now, s.miners[i].transactions)
  }

  /** manage_validators: a fuller pool allows one validator more. */
  predicate WantsValidator(occupancy: int, active: nat) {
    (occupancy >= 80 && active < 3) || (60 <= occupancy < 80 && active < 2)
  }

  /** Some generator has drawn the identifier before. */
  ghost predicate Issued(counters: map<nat, nat>, name: Bytes) {
    exists p: nat, c: nat :: p in counters && c < counters[p] && name == IdText(p, c)
  }

  /** The identifier that the process draws next is a new one. */
  ghost predicate Fresh(s: State, pid: nat) {
    !Issued(s.counters, IdText(pid, Counter(s, pid)))
  }

  /** What the program can do in a state. */
  ghost predicate Possible(sys: System, s: State, step: Step) {
    match step
    case Generate(pid, d) => 1 <= d.reward <= 3
    case Post => s.unposted > 0
    case Wake(i) => MinerAt(s, i) && s.miners[i].Waiting? && s.permits > 0
    case ReadTip(i) => MinerAt(s, i) && s.miners[i].Woken?
    case Select(i) => MinerAt(s, i) && s.miners[i].HasTip?
    case Mine(i, now, retry, nonce) =>
      && MinerAt(s, i) && s.miners[i].Reserved?
      && (|| Finds(sys.h, Draft(s, i, now), nonce)
          || (Fails(sys.h, Draft(s, i, now)) && Finds(sys.h, Draft(s, i, retry), nonce)))
    case MineFails(i, now, retry) =>
      && MinerAt(s, i) && s.miners[i].Reserved?
      && Fails(sys.h, Draft(s, i, now)) && Fails(sys.h, Draft(s, i, retry))
    case Send(i) => MinerAt(s, i) && s.miners[i].Mined?
    case SendFails(i) => MinerAt(s, i) && s.miners[i].Mined?
    case GiveBack(i) => MinerAt(s, i) && s.miners[i].GivingUp?
    case Receive(v) => ValidatorAt(s, v) && s.validators[v].Ready? && s.pipe != []
    case CheckLink(v) => ValidatorAt(s, v) && s.validators[v].Received?
    case CheckPool(v) => ValidatorAt(s, v) && s.validators[v].Linked?
    case CheckCapacity(v) => ValidatorAt(s, v) && s.validators[v].Checked?
    case Append(v) => ValidatorAt(s, v) && s.validators[v].Cleared?
    case Remove(v) => ValidatorAt(s, v) && s.validators[v].Appended?
    case GiveBackRefused(v) => ValidatorAt(s, v) && s.validators[v].Refused?
    case Report(v, elapsed) => ValidatorAt(s, v) && s.validators[v].Reporting?
    case Age(v) => ValidatorAt(s, v) && s.validators[v].Ready?
    case Fork =>
      && ValidatorAt(s, 0) && s.validators[0].Ready?
      && WantsValidator(s.occupancy, s.active)
    case Exit(v) => 0 < v && ValidatorAt(s, v) && s.validators[v].Ready? && s.occupancy <= 40
    case Collect => s.queue != []
  }

  /** A possible step that draws no identifier twice: runs are made of these. */
  ghost predicate Enabled(sys: System, s: State, step: Step): (e: bool)
    ensures e ==> Possible(sys, s, step)
  {
    Possible(sys, s, step) && (step.Generate? ==> Fresh(s, step.pid))
  }

  function SetMiner(s: State, i: nat, m: Miner): State
    requires MinerAt(s, i)
  {
    s.(miners := s.miners[i := m])
  }

  function SetValidator(s: State, v: nat, x: Validator): State
    requires ValidatorAt(s, v)
  {
    s.(validators := s.validators[v := x])
  }

  function PercentFull(pool: seq<Slot>): nat {
    if |pool| == 0 then 0 else Occupancy(pool)
  }

  /** How many slots became live. */
  function Revived(before: seq<Slot>, after: seq<Slot>): nat {
    if CountLive(after) < CountLive(before) then 0 else CountLive(after) - CountLive(before)
  }

  function DoGenerate(s: State, pid: nat, d: Draw): State {
    var tx := NewTx(pid, Counter(s, pid), d);
    var (pool, r) := Insert(s.pool, tx);
    var t := s.(counters := s.counters[pid := Counter(s, pid) + 1]);
    if r.Inserted?
    then t.(pool := pool, occupancy := PercentFull(pool), unposted := s.unposted + 1, born := s.born[Name(tx) := tx])
    else t
  }

  function DoSelect(s: State, k: nat, i: nat): State
    requires MinerAt(s, i) && s.miners[i].HasTip?
  {
    var (pool, got) := Reserve(s.pool, k);
    match got
    case None => SetMiner(s, i, Waiting)
    case Some(ts) => SetMiner(s.(pool := pool), i, Reserved(s.miners[i].previous, s.miners[i].blockId, ts))
  }

  ghost function DoMine(sys: System, s: State, i: nat, now: int, retry: int, nonce: uint32): State
    requires MinerAt(s, i) && s.miners[i].Reserved?
  {
    var b := if Finds(sys.h, Draft(s, i, now), nonce) then Draft(s, i, now) else Draft(s, i, retry);
    SetMiner(s, i, Mined(b.(nonce := nonce)))
  }

  function DoGiveBack(s: State, i: nat): State
    requires MinerAt(s, i) && s.miners[i].GivingUp?
  {
    var pool := ReturnAll(s.pool, s.miners[i].transactions);
    SetMiner(s.(pool := pool, returned := s.returned + Revived(s.pool, pool)), i, Waiting)
  }

  function DoReceive(s: State, k: nat, v: nat): State
    requires ValidatorAt(s, v) && s.pipe != []
  {
    var m := s.pipe[0];
    var t := s.(pipe := s.pipe[1..]);
    if 0 < |m.block.transactions| <= k then SetValidator(t, v, Received(m)) else t
  }

  function DoCheckPool(s: State, v: nat): State
    requires ValidatorAt(s, v) && s.validators[v].Linked?
  {
    var m := s.validators[v].m;
    var (pool, ok) := Check(s.pool, m.block.transactions);
    SetValidator(s.(pool := pool, returned := s.returned + Revived(s.pool, pool)), v,
                  if ok then Checked(m) else Reporting(m, false))
  }

  function DoAppend(s: State, v: nat): State
    requires ValidatorAt(s, v) && s.validators[v].Cleared?
  {
    var m := s.validators[v].m;
    SetValidator(s.(ledger := s.ledger + [m.block], accepted := s.accepted + [m]), v, Appended(m))
  }

  function DoRemove(s: State, v: nat): State
    requires ValidatorAt(s, v) && s.validators[v].Appended?
  {
    var m := s.validators[v].m;
    var pool := PoolSpec.Remove(s.pool, m.block.transactions);
    SetValidator(s.(pool := pool, occupancy := PercentFull(pool)), v, Reporting(m, true))
  }

  function DoGiveBackRefused(s: State, v: nat): State
    requires ValidatorAt(s, v) && s.validators[v].Refused?
  {
    var m := s.validators[v].m;
    var pool := ReturnFirst(s.pool, m.block.transactions);
    SetValidator(s.(pool := pool, occupancy := PercentFull(pool),
                     returned := s.returned + Revived(s.pool, pool), refused := s.refused + [m]),
                  v, Reporting(m, true))
  }

  function DoReport(s: State, v: nat, elapsed: real): State
    requires ValidatorAt(s, v) && s.validators[v].Reporting?
  {
    var m, valid := s.validators[v].m, s.validators[v].valid;
    var rewards := if valid then RewardSum(m.block.transactions) else 0;
    SetValidator(s.(queue := s.queue + [StatMsg(m.minerId, valid, elapsed, rewards)]), v, Ready)
  }

  ghost function Do(sys: System, s: State, step: Step): State
    requires Possible(sys, s, step)
  {
    match step
    case Generate(pid, d) => DoGenerate(s, pid, d)
    case Post => s.(unposted := s.unposted - 1, permits := s.permits + 1)
    case Wake(i) => SetMiner(s.(permits := s.permits - 1), i, Woken)
    case ReadTip(i) => SetMiner(s, i, HasTip(Tip(Hasher(sys.h), s.ledger), |s.ledger|))
    case Select(i) => DoSelect(s, sys.config.perBlock, i)
    case Mine(i, now, retry, nonce) => DoMine(sys, s, i, now, retry, nonce)
    case MineFails(i, _, _) => SetMiner(s, i, GivingUp(s.miners[i].transactions))
    case Send(i) => SetMiner(s.(pipe := s.pipe + [Message(i + 1, s.miners[i].block)]), i, Waiting)
    case SendFails(i) => SetMiner(s, i, GivingUp(s.miners[i].block.transactions))
    case GiveBack(i) => DoGiveBack(s, i)
    case Receive(v) => DoReceive(s, sys.config.perBlock, v)
    case CheckLink(v) =>
      var m := s.validators[v].m;
      var ok := Accepts(sys.h, m.block) && Links(m.block, Tip(Hasher(sys.h), s.ledger));
      SetValidator(s, v, if ok then Linked(m) else Reporting(m, false))
    case CheckPool(v) => DoCheckPool(s, v)
    case CheckCapacity(v) =>
      var m := s.validators[v].m;
      SetValidator(s, v, if |s.ledger| < sys.config.maxBlocks then Cleared(m) else Refused(m))
    case Append(v) => DoAppend(s, v)
    case Remove(v) => DoRemove(s, v)
    case GiveBackRefused(v) => DoGiveBackRefused(s, v)
    case Report(v, elapsed) => DoReport(s, v, elapsed)
    case Age(v) => s.(pool := AgeAll(s.pool))
    case Fork => s.(validators := s.validators + [Ready], active := s.active + 1)
    case Exit(v) => SetValidator(s, v, Exited)
    case Collect => s.(queue := s.queue[1..], tallies := Record(s.tallies, s.queue[0]))
  }

  // ----- runs ------------------------------------------------------------------------------------

  ghost predicate Runs(sys: System, s: State, steps: seq<Step>)
    decreases |steps|
  {
    steps == [] || (Enabled(sys, s, steps[0]) && Runs(sys, Do(sys, s, steps[0]), steps[1..]))
  }

  ghost function After(sys: System, s: State, steps: seq<Step>): State
    requires Runs(sys, s, steps)
    decreases |steps|
  {
    if steps == [] then s else After(sys, Do(sys, s, steps[0]), steps[1..])
  }

  /** A run may be put together from its first step and the rest. */
  lemma FirstStep(sys: System, s: State, step: Step, rest: seq<Step>)
    requires Enabled(sys, s, step) && Runs(sys, Do(sys, s, step), rest)
    ensures Runs(sys, s, [step] + rest) && After(sys, s, [step] + rest) == After(sys, Do(sys, s, step), rest)
  {
    hide Enabled, Possible, Do;
    assert ([step] + rest)[1..] == rest;
  }

  /** Runs compose ... */
  lemma {:induction false} RunsAppend(sys: System, s: State, a: seq<Step>, b: seq<Step>)
    requires Runs(sys, s, a) && Runs(sys, After(sys, s, a), b)
    ensures Runs(sys, s, a + b) && After(sys, s, a + b) == After(sys, After(sys, s, a), b)
    decreases |a|
  {
    hide Enabled, Possible, Do;
    if a == [] {
      assert a + b == b;
    } else {
      RunsAppend(sys, Do(sys, s, a[0]), a[1..], b);
      assert (a + b)[1..] == a[1..] + b;
    }
  }

  /** ... and split. */
  lemma {:induction false} RunsSplit(sys: System, s: State, steps: seq<Step>, n: nat)
    requires Runs(sys, s, steps) && n <= |steps|
    ensures Runs(sys, s, steps[..n]) && Runs(sys, After(sys, s, steps[..n]), steps[n..])
    ensures After(sys, s, steps) == After(sys, After(sys, s, steps[..n]), steps[n..])
    decreases n
  {
    hide Enabled, Possible, Do;
    if n == 0 {
      assert steps[..0] == [] && steps[0..] == steps;
    } else {
      RunsSplit(sys, Do(sys, s, steps[0]), steps[1..], n - 1);
      assert steps[..n][1..] == steps[1..][..n - 1] && steps[n..] == steps[1..][n - 1..];
    }
  }

  /** The last step of a run is taken in the state that the others lead to. */
  lemma LastStep(sys: System, s: State, steps: seq<Step>, n: nat)
    requires Runs(sys, s, steps) && n < |steps|
    ensures Runs(sys, s, steps[..n]) && Enabled(sys, After(sys, s, steps[..n]), steps[n])
    ensures Runs(sys, s, steps[..n + 1])
    ensures After(sys, s, steps[..n + 1]) == Do(sys, After(sys, s, steps[..n]), steps[n])
  {
    hide Enabled, Possible, Do;
    RunsSplit(sys, s, steps, n + 1);
    RunsSplit(sys, s, steps[..n + 1], n);
    assert steps[..n + 1][..n] == steps[..n] && steps[..n + 1][n..] == [steps[n]];
    assert [steps[n]][1..] == [];
  }

  /** Some run of a system with a valid configuration leads from the start to `s`. */
  ghost predicate Reachable(sys: System, s: State) {
    ValidConfig(sys.config) && exists steps :: Runs(sys, Init(sys), steps) && After(sys, Init(sys), steps) == s
  }

  lemma ReachableAfter(sys: System, s: State, steps: seq<Step>)
    requires Reachable(sys, s) && Runs(sys, s, steps)
    ensures Reachable(sys, After(sys, s, steps))
  {
    hide Enabled, Possible, Do, Init, Runs, After;
    var first :| Runs(sys, Init(sys), first) && After(sys, Init(sys), first) == s;
    RunsAppend(sys, Init(sys), first, steps);
  }

  lemma ReachableStep(sys: System, s: State, step: Step)
    requires Reachable(sys, s) && Enabled(sys, s, step)
    ensures Reachable(sys, Do(sys, s, step))
  {
    hide Enabled, Possible, Do, Reachable;
    FirstStep(sys, s, step, []);
    ReachableAfter(sys, s, [step] + []);
  }

  lemma StartIsReachable(sys: System)
    requires ValidConfig(sys.config)
    ensures Reachable(sys, Init(sys))
  {
    hide Enabled, Possible, Do, Init;
    assert Runs(sys, Init(sys), []) && After(sys, Init(sys), []) == Init(sys);
  }

  ghost predicate Inductive(sys: System, inv: State -> bool) {
    forall s, step :: inv(s) && Enabled(sys, s, step) ==> inv(Do(sys, s, step))
  }

  lemma {:induction false} InductiveAlongRuns(sys: System, inv: State -> bool, s: State, steps: seq<Step>)
    requires Inductive(sys, inv) && inv(s) && Runs(sys, s, steps)
    ensures inv(After(sys, s, steps))
    decreases |steps|
  {
    hide Enabled, Possible, Do;
    if steps != [] {
      InductiveAlongRuns(sys, inv, Do(sys, s, steps[0]), steps[1..]);
    }
  }

  /** Whatever holds at the start and is kept by every step holds in every reachable state. */
  lemma InductiveIsInvariant(sys: System, inv: State -> bool, s: State)
    requires ValidConfig(sys.config) ==> inv(Init(sys))
    requires Inductive(sys, inv) && Reachable(sys, s)
    ensures inv(s)
  {
    hide Enabled, Possible, Do, Inductive, Init;
    var steps :| Runs(sys, Init(sys), steps) && After(sys, Init(sys), steps) == s;
    InductiveAlongRuns(sys, inv, Init(sys), steps);
  }
}
