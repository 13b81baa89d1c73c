/** Rewards across the modules: what the ledger holds, what validators still have to report, what
    is queued, and what statistics has credited. */
module ProtocolRewards {
  import opened Data
  import opened Sums
  import opened PoolSpec
  import opened Pow
  import opened Chain
  import opened Statistics
  import opened Protocol

  // Each amount is taken over a set of miner ids, so that one law covers each miner and all.

  function BlockCredit(sel: set<int>): Message -> int {
    (m: Message) => if m.minerId in sel then RewardSum(m.block.transactions) else 0
  }

  function QueuedCredit(sel: set<int>): StatMsg -> int {
    (m: StatMsg) => if m.valid && m.minerId in sel then m.rewards else 0
  }

  /** A validator that has decided but not reported yet. */
  function PendingCredit(sel: set<int>): Validator -> int {
    (x: Validator) => if x.Appended? || (x.Reporting? && x.valid) then BlockCredit(sel)(x.m) else 0
  }

  function Credits(ts: seq<Tally>, sel: set<int>): int {
    if ts == [] then 0
    else Credits(ts[..|ts| - 1], sel) + if |ts| in sel then ts[|ts| - 1].credits else 0
  }

  lemma {:induction false} CreditsRecord(ts: seq<Tally>, sel: set<int>, m: StatMsg)
    requires 1 <= m.minerId <= |ts|
    ensures Credits(Record(ts, m), sel) == Credits(ts, sel) + QueuedCredit(sel)(m)
  {
    var n := |ts| - 1;
    var r := Record(ts, m);
    if m.minerId == |ts| {
      assert r[..n] == ts[..n];
    } else {
      CreditsRecord(ts[..n], sel, m);
      assert r[..n] == Record(ts[..n], m);
    }
  }

  predicate KnownId(sys: System, id: int) { 1 <= id <= sys.config.numMiners }

  function AllIds(sys: System): set<int> {
    set id | 1 <= id <= sys.config.numMiners && KnownId(sys, id)
  }

  predicate Busy(x: Validator) { !x.Ready? && !x.Exited? }

  /** Only the system's miners are named anywhere. */
  ghost predicate IdsOk(sys: System, s: State) {
    && |s.miners| == |s.tallies| == sys.config.numMiners
    && (forall n :: 0 <= n < |s.pipe| ==> KnownId(sys, s.pipe[n].minerId))
    && (forall v :: 0 <= v < |s.validators| && Busy(s.validators[v]) ==> KnownId(sys, s.validators[v].m.minerId))
    && (forall n :: 0 <= n < |s.queue| ==> KnownId(sys, s.queue[n].minerId))
    && (forall n :: 0 <= n < |s.accepted| ==> KnownId(sys, s.accepted[n].minerId))
    && (forall n :: 0 <= n < |s.refused| ==> KnownId(sys, s.refused[n].minerId))
    && |s.accepted| == |s.ledger|
    && (forall b :: 0 <= b < |s.ledger| ==> s.accepted[b].block == s.ledger[b])
  }

  ghost predicate Balanced(s: State, sel: set<int>) {
    Credits(s.tallies, sel) + Sum(s.queue, QueuedCredit(sel)) + Sum(s.validators, PendingCredit(sel))
    == Sum(s.accepted, BlockCredit(sel)) + Sum(s.refused, BlockCredit(sel))
  }

  lemma MinerIds(sys: System, s: State, step: Step)
    requires IdsOk(sys, s) && Enabled(sys, s, step)
    requires step.Generate? || step.Post? || step.Wake? || step.ReadTip? || step.Select? || step.Mine? || step.MineFails?
          || step.Send? || step.SendFails? || step.GiveBack? || step.Age?
    ensures IdsOk(sys, Do(sys, s, step))
  {
    hide Name, Finds, Fails, Insert, Reserve, AgeAll, ReturnAll, Tip, Hasher, PercentFull, Revived, NewTx, NewBlock;
  }

  lemma ValidatorIds(sys: System, s: State, step: Step)
    requires IdsOk(sys, s) && Enabled(sys, s, step)
    requires step.Receive? || step.CheckLink? || step.CheckPool? || step.CheckCapacity? || step.Remove? || step.Exit? || step.Fork?
    ensures IdsOk(sys, Do(sys, s, step))
  {
    hide Accepts, Check, PoolSpec.Remove, Links, Tip, Hasher, PercentFull, Revived;
  }

  lemma RecordingIds(sys: System, s: State, step: Step)
    requires IdsOk(sys, s) && Enabled(sys, s, step)
    requires step.Append? || step.GiveBackRefused? || step.Report? || step.Collect?
    ensures IdsOk(sys, Do(sys, s, step))
  {
    hide ReturnFirst, PercentFull, Revived, RewardSum, RecordOne;
  }

  lemma IdsStep(sys: System, s: State, step: Step)
    requires IdsOk(sys, s) && Enabled(sys, s, step)
    ensures IdsOk(sys, Do(sys, s, step))
  {
    hide Enabled, Possible, Do, IdsOk;
    if step.Receive? || step.CheckLink? || step.CheckPool? || step.CheckCapacity? || step.Remove? || step.Exit? || step.Fork? {
      ValidatorIds(sys, s, step);
    } else if step.Append? || step.GiveBackRefused? || step.Report? || step.Collect? {
      RecordingIds(sys, s, step);
    } else {
      MinerIds(sys, s, step);
    }
  }

  /** A validator's move is balanced by what it adds to the queue and to the two records. */
  lemma ValidatorBalanced(s: State, t: State, sel: set<int>, v: nat, x: Validator)
    requires Balanced(s, sel) && ValidatorAt(s, v)
    requires t.tallies == s.tallies && t.validators == s.validators[v := x]
    requires PendingCredit(sel)(x) - PendingCredit(sel)(s.validators[v])
          == (Sum(t.accepted, BlockCredit(sel)) - Sum(s.accepted, BlockCredit(sel)))
           + (Sum(t.refused, BlockCredit(sel)) - Sum(s.refused, BlockCredit(sel)))
           - (Sum(t.queue, QueuedCredit(sel)) - Sum(s.queue, QueuedCredit(sel)))
    ensures Balanced(t, sel)
  {
    hide Sum, Credits, PendingCredit, BlockCredit, QueuedCredit;
    SumUpdate(s.validators, v, x, PendingCredit(sel));
  }

  lemma ValidatorStepBalanced(sys: System, s: State, sel: set<int>, step: Step)
    requires Balanced(s, sel) && Enabled(sys, s, step)
    requires step.Receive? || step.CheckLink? || step.CheckPool? || step.CheckCapacity? || step.Remove? || step.Exit?
    ensures Balanced(Do(sys, s, step), sel)
  {
    hide Accepts, Check, PoolSpec.Remove, Links, Tip, Hasher, PercentFull, Revived, RewardSum, Sum, Credits, Balanced;
    var t := Do(sys, s, step);
    ValidatorBalanced(s, t, sel, step.v, t.validators[step.v]);
  }

  lemma AppendBalanced(sys: System, s: State, sel: set<int>, v: nat)
    requires Balanced(s, sel) && Enabled(sys, s, Append(v))
    ensures Balanced(Do(sys, s, Append(v)), sel)
  {
    hide RewardSum, Sum, Credits, Balanced;
    SumAppend(s.accepted, s.validators[v].m, BlockCredit(sel));
    ValidatorBalanced(s, Do(sys, s, Append(v)), sel, v, Appended(s.validators[v].m));
  }

  lemma RefusedBalanced(sys: System, s: State, sel: set<int>, v: nat)
    requires Balanced(s, sel) && Enabled(sys, s, GiveBackRefused(v))
    ensures Balanced(Do(sys, s, GiveBackRefused(v)), sel)
  {
    hide RewardSum, Sum, Credits, Balanced, ReturnFirst, PercentFull, Revived;
    SumAppend(s.refused, s.validators[v].m, BlockCredit(sel));
    ValidatorBalanced(s, Do(sys, s, GiveBackRefused(v)), sel, v, Reporting(s.validators[v].m, true));
  }

  lemma ReportBalanced(sys: System, s: State, sel: set<int>, v: nat, elapsed: real)
    requires Balanced(s, sel) && Enabled(sys, s, Report(v, elapsed))
    ensures Balanced(Do(sys, s, Report(v, elapsed)), sel)
  {
    hide RewardSum, Sum, Credits, Balanced;
    var t := Do(sys, s, Report(v, elapsed));
    SumAppend(s.queue, t.queue[|s.queue|], QueuedCredit(sel));
    assert t.queue == s.queue + [t.queue[|s.queue|]];
    ValidatorBalanced(s, t, sel, v, Ready);
  }

  lemma CollectBalanced(sys: System, s: State, sel: set<int>)
    requires IdsOk(sys, s) && Balanced(s, sel) && Enabled(sys, s, Collect)
    ensures Balanced(Do(sys, s, Collect), sel)
  {
    SumTail(s.queue, QueuedCredit(sel));
    CreditsRecord(s.tallies, sel, s.queue[0]);
    hide Sum, Credits, Record, QueuedCredit, BlockCredit, PendingCredit;
  }

  lemma OtherBalanced(sys: System, s: State, sel: set<int>, step: Step)
    requires Balanced(s, sel) && Enabled(sys, s, step)
    requires step.Generate? || step.Post? || step.Wake? || step.ReadTip? || step.Select? || step.Mine? || step.MineFails?
          || step.Send? || step.SendFails? || step.GiveBack? || step.Age? || step.Fork?
    ensures Balanced(Do(sys, s, step), sel)
  {
    hide Name, Accepts, Finds, Fails, Insert, Reserve, AgeAll, ReturnAll, Tip, Hasher, PercentFull, Revived, NewTx,
         NewBlock, Sum, Credits, BlockCredit, QueuedCredit, RewardSum;
    SumAppend(s.validators, Ready, PendingCredit(sel));
  }

  lemma BalancedStep(sys: System, s: State, sel: set<int>, step: Step)
    requires IdsOk(sys, s) && Balanced(s, sel) && Enabled(sys, s, step)
    ensures Balanced(Do(sys, s, step), sel)
  {
    hide Enabled, Possible, Do, Balanced, IdsOk;
    match step
    case Collect => CollectBalanced(sys, s, sel);
    case Append(v) => AppendBalanced(sys, s, sel, v);
    case GiveBackRefused(v) => RefusedBalanced(sys, s, sel, v);
    case Report(v, elapsed) => ReportBalanced(sys, s, sel, v, elapsed);
    case Receive(_) => ValidatorStepBalanced(sys, s, sel, step);
    case CheckLink(_) => ValidatorStepBalanced(sys, s, sel, step);
    case CheckPool(_) => ValidatorStepBalanced(sys, s, sel, step);
    case CheckCapacity(_) => ValidatorStepBalanced(sys, s, sel, step);
    case Remove(_) => ValidatorStepBalanced(sys, s, sel, step);
    case Exit(_) => ValidatorStepBalanced(sys, s, sel, step);
    case _ => OtherBalanced(sys, s, sel, step);
  }

  lemma {:induction false} CreditsOfZeros(n: nat, sel: set<int>)
    ensures Credits(seq(n, _ => ZERO), sel) == 0
  {
    if n > 0 {
      assert seq(n, _ => ZERO)[..n - 1] == seq(n - 1, _ => ZERO);
      CreditsOfZeros(n - 1, sel);
    }
  }

  lemma AtStart(sys: System, sel: set<int>)
    requires ValidConfig(sys.config)
    ensures IdsOk(sys, Init(sys)) && Balanced(Init(sys), sel)
  {
    CreditsOfZeros(sys.config.numMiners, sel);
    SumZero([Ready], PendingCredit(sel));
  }

  lemma BalancedAlways(sys: System, s: State, sel: set<int>)
    requires Reachable(sys, s)
    ensures IdsOk(sys, s) && Balanced(s, sel)
  {
    hide IdsOk, Balanced, Enabled, Possible, Do;
    var inv := (s: State) => IdsOk(sys, s) && Balanced(s, sel);
    forall s, step | inv(s) && Enabled(sys, s, step) ensures inv(Do(sys, s, step)) {
      IdsStep(sys, s, step);
      BalancedStep(sys, s, sel, step);
    }
    if ValidConfig(sys.config) {
      AtStart(sys, sel);
    }
    InductiveIsInvariant(sys, inv, s);
  }

  /** The credits of some miners, summed over their numbers. */
  lemma {:induction false} CreditsMean(ts: seq<Tally>, sel: set<int>, n: nat)
    requires n <= |ts|
    ensures Credits(ts[..n], sel) ==
      Sum(seq(n, i => i), (i: int) => if 0 <= i < |ts| && i + 1 in sel then ts[i].credits else 0)
  {
    if n > 0 {
      CreditsMean(ts, sel, n - 1);
      assert ts[..n][..n - 1] == ts[..n - 1] && seq(n, i => i)[..n - 1] == seq(n - 1, i => i);
    }
  }

  lemma BlockCreditMeans(ms: seq<Message>, sel: set<int>)
    ensures Sum(ms, BlockCredit(sel)) == Sum(ms, (m: Message) =>
      if m.minerId in sel then Sum(m.block.transactions, (t: Transaction) => t.reward) else 0)
  {
    forall m: Message ensures RewardSum(m.block.transactions) == Sum(m.block.transactions, (t: Transaction) => t.reward) {
      RewardSumMeans(m.block.transactions);
    }
    hide RewardSum, Sum;
    SumSame(ms, BlockCredit(sel), (m: Message) =>
      if m.minerId in sel then Sum(m.block.transactions, (t: Transaction) => t.reward) else 0);
  }

  lemma QueuedCreditMeans(ms: seq<StatMsg>, sel: set<int>)
    ensures Sum(ms, QueuedCredit(sel)) == Sum(ms, (m: StatMsg) => if m.valid && m.minerId in sel then m.rewards else 0)
  {
    hide Sum;
    SumSame(ms, QueuedCredit(sel), (m: StatMsg) => if m.valid && m.minerId in sel then m.rewards else 0);
  }

  lemma RestingIsBalanced(sys: System, s: State, sel: set<int>)
    requires Reachable(sys, s)
    requires forall v :: 0 <= v < |s.validators| ==> !Busy(s.validators[v])
    ensures Credits(s.tallies, sel) + Sum(s.queue, QueuedCredit(sel))
         == Sum(s.accepted, BlockCredit(sel)) + Sum(s.refused, BlockCredit(sel))
  {
    BalancedAlways(sys, s, sel);
    SumZero(s.validators, PendingCredit(sel));
  }

  /** When no validator is in the middle of an iteration, then for every set of miners the credits
      recorded plus the rewards of queued valid messages equal the rewards of the transactions of their
      blocks in the ledger plus those of their validated blocks that found the ledger full. */
  lemma RewardAccounting(sys: System, s: State, sel: set<int>)
    requires Reachable(sys, s)
    requires forall v :: 0 <= v < |s.validators| ==> s.validators[v].Ready? || s.validators[v].Exited?
    ensures |s.accepted| == |s.ledger| && forall b :: 0 <= b < |s.ledger| ==> s.accepted[b].block == s.ledger[b]
    ensures Sum(seq(|s.tallies|, i => i), (i: int) =>
                if 0 <= i < |s.tallies| && i + 1 in sel then s.tallies[i].credits else 0)
            + Sum(s.queue, (m: StatMsg) => if m.valid && m.minerId in sel then m.rewards else 0)
         == Sum(s.accepted, (m: Message) =>
                if m.minerId in sel then Sum(m.block.transactions, (t: Transaction) => t.reward) else 0)
            + Sum(s.refused, (m: Message) =>
                if m.minerId in sel then Sum(m.block.transactions, (t: Transaction) => t.reward) else 0)
  {
    hide Reachable, RewardSum, Sum, Credits;
    RestingIsBalanced(sys, s, sel);
    BalancedAlways(sys, s, sel);
    CreditsMean(s.tallies, sel, |s.tallies|);
    assert s.tallies[..|s.tallies|] == s.tallies;
    QueuedCreditMeans(s.queue, sel);
    BlockCreditMeans(s.accepted, sel);
    BlockCreditMeans(s.refused, sel);
  }

  lemma {:induction false} AllBlocksCounted(accepted: seq<Message>, ledger: seq<Block>, sel: set<int>)
    requires |accepted| == |ledger| && forall b :: 0 <= b < |ledger| ==> accepted[b].block == ledger[b]
    requires forall b :: 0 <= b < |accepted| ==> accepted[b].minerId in sel
    ensures Sum(accepted, BlockCredit(sel)) == Sum(ledger, (b: Block) => Sum(b.transactions, (t: Transaction) => t.reward))
  {
    hide RewardSum;
    if ledger != [] {
      AllBlocksCounted(accepted[..|ledger| - 1], ledger[..|ledger| - 1], sel);
      RewardSumMeans(ledger[|ledger| - 1].transactions);
    }
  }

  lemma {:induction false} AllCreditsCounted(ts: seq<Tally>, sel: set<int>)
    requires forall id :: 1 <= id <= |ts| ==> id in sel
    ensures Credits(ts, sel) == Total(ts).credits
  {
    if ts != [] {
      AllCreditsCounted(ts[..|ts| - 1], sel);
    }
  }

  lemma {:induction false} AllQueued(ms: seq<StatMsg>, sel: set<int>)
    requires forall n :: 0 <= n < |ms| ==> ms[n].minerId in sel
    ensures Sum(ms, QueuedCredit(sel)) == Sum(ms, (m: StatMsg) => if m.valid then m.rewards else 0)
  {
    if ms != [] {
      AllQueued(ms[..|ms| - 1], sel);
    }
  }

  lemma {:induction false} AllRefused(ms: seq<Message>, sel: set<int>)
    requires forall n :: 0 <= n < |ms| ==> ms[n].minerId in sel
    ensures Sum(ms, BlockCredit(sel)) == Sum(ms, (m: Message) => Sum(m.block.transactions, (t: Transaction) => t.reward))
  {
    hide RewardSum;
    if ms != [] {
      AllRefused(ms[..|ms| - 1], sel);
      RewardSumMeans(ms[|ms| - 1].block.transactions);
    }
  }

  /** Over all miners together: the total that would be printed plus the rewards of queued valid messages
      are the rewards of all ledger transactions plus those of the blocks refused because the ledger was full. */
  lemma TotalRewardAccounting(sys: System, s: State)
    requires Reachable(sys, s)
    requires forall v :: 0 <= v < |s.validators| ==> s.validators[v].Ready? || s.validators[v].Exited?
    ensures Total(s.tallies).credits + Sum(s.queue, (m: StatMsg) => if m.valid then m.rewards else 0)
         == Sum(s.ledger, (b: Block) => Sum(b.transactions, (t: Transaction) => t.reward))
            + Sum(s.refused, (m: Message) => Sum(m.block.transactions, (t: Transaction) => t.reward))
  {
    hide Reachable, RewardSum, Sum, Credits, Total;
    var all := AllIds(sys);
    BalancedAlways(sys, s, all);
    RestingIsBalanced(sys, s, all);
    AllBlocksCounted(s.accepted, s.ledger, all);
    AllCreditsCounted(s.tallies, all);
    AllQueued(s.queue, all);
    AllRefused(s.refused, all);
  }
}
