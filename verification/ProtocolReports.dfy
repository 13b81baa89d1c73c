/** Between the validators and the statistics process: in every run the tallies are those of the reports sent so
    far, in order, without the ones that are still queued. */
module ProtocolReports {
  import opened Data
  import opened Sums
  import opened Pow
  import opened Chain
  import opened PoolSpec
  import opened Statistics
  import opened Protocol

  /** What a reporting validator sends. */
  function ReportBy(x: Validator, elapsed: real): StatMsg
    requires x.Reporting?
  {
    StatMsg(x.m.minerId, x.valid, elapsed, if x.valid then Sum(x.m.block.transactions, (t: Transaction) => t.reward) else 0)
  }

  /** The reports of a run, in the order of their steps. */
  ghost function Reports(sys: System, s: State, steps: seq<Step>): seq<StatMsg>
    requires Runs(sys, s, steps)
    decreases |steps|
  {
    if steps == [] then []
    else
      var step := steps[0];
      (if step.Report? then [ReportBy(s.validators[step.v], step.elapsed)] else [])
      + Reports(sys, Do(sys, s, step), steps[1..])
  }

  lemma ReportStep(sys: System, s: State, step: Step)
    requires Possible(sys, s, step)
    ensures var t := Do(sys, s, step);
            && t.tallies == (if step.Collect? then Record(s.tallies, s.queue[0]) else s.tallies)
            && t.queue == if step.Collect? then s.queue[1..]
                          else if step.Report? then s.queue + [ReportBy(s.validators[step.v], step.elapsed)]
                          else s.queue
  {
    if step.Report? {
      RewardSumMeans(s.validators[step.v].m.block.transactions);
    }
    hide Name, Accepts, Finds, Fails, Insert, Reserve, Check, AgeAll, ReturnAll, ReturnFirst, PoolSpec.Remove, Links, Tip,
         Hasher, PercentFull, Revived, NewTx, RewardSum, Sum, NewBlock, Record;
  }

  lemma RunUnfolds(sys: System, s: State, steps: seq<Step>)
    requires Runs(sys, s, steps) && steps != []
    ensures Possible(sys, s, steps[0]) && Runs(sys, Do(sys, s, steps[0]), steps[1..])
    ensures steps[0].Collect? ==> s.queue != []
    ensures steps[0].Report? ==> ValidatorAt(s, steps[0].v) && s.validators[steps[0].v].Reporting?
    ensures After(sys, s, steps) == After(sys, Do(sys, s, steps[0]), steps[1..])
    ensures Reports(sys, s, steps) ==
      (if steps[0].Report? then [ReportBy(s.validators[steps[0].v], steps[0].elapsed)] else [])
      + Reports(sys, Do(sys, s, steps[0]), steps[1..])
  {
    hide Do, ReportBy;
  }

  lemma NoSteps(sys: System, s: State)
    ensures Runs(sys, s, []) && After(sys, s, []) == s && Reports(sys, s, []) == []
  {
  }

  lemma Rearranged(before: seq<StatMsg>, queue: seq<StatMsg>, more: seq<StatMsg>, later: seq<StatMsg>)
    ensures before + queue + (more + later) == before + (queue + more) + later
    ensures queue != [] ==> before + queue + ([] + later) == before + [queue[0]] + queue[1..] + later
    ensures queue + [] == queue
  {
  }

  lemma {:induction false} ReportsArrive(sys: System, s: State, steps: seq<Step>, n: nat, before: seq<StatMsg>)
    requires Runs(sys, s, steps) && s.tallies == Fold(n, before)
    ensures var t, all := After(sys, s, steps), before + s.queue + Reports(sys, s, steps);
            && |t.queue| <= |all| && t.queue == all[|all| - |t.queue|..]
            && t.tallies == Fold(n, all[..|all| - |t.queue|])
    decreases |steps|
  {
    hide Possible, Enabled, Do, Record, ReportBy, Runs, After, Reports, Fold;
    if steps == [] {
      NoSteps(sys, s);
      assert (before + s.queue + [])[..|before|] == before;
    } else {
      RunUnfolds(sys, s, steps);
      ReportStep(sys, s, steps[0]);
      var u, later := Do(sys, s, steps[0]), Reports(sys, Do(sys, s, steps[0]), steps[1..]);
      var more := if steps[0].Report? then [ReportBy(s.validators[steps[0].v], steps[0].elapsed)] else [];
      Rearranged(before, s.queue, more, later);
      if steps[0].Collect? {
        CollectedNext(n, before, s.queue);
        ReportsArrive(sys, u, steps[1..], n, before + [s.queue[0]]);
      } else {
        ReportsArrive(sys, u, steps[1..], n, before);
      }
    }
  }

  lemma CollectedNext(n: nat, before: seq<StatMsg>, queue: seq<StatMsg>)
    requires queue != []
    ensures Fold(n, before + [queue[0]]) == Record(Fold(n, before), queue[0])
  {
    hide Record;
    assert (before + [queue[0]])[..|before|] == before;
  }

  /** In every run: the queue is the end of the list of reports, and the tallies are what the rest of them adds
      up to. */
  lemma TalliesOfReports(sys: System, steps: seq<Step>)
    requires Runs(sys, Init(sys), steps)
    ensures var t, all := After(sys, Init(sys), steps), Reports(sys, Init(sys), steps);
            && |t.queue| <= |all| && t.queue == all[|all| - |t.queue|..]
            && t.tallies == Fold(sys.config.numMiners, all[..|all| - |t.queue|])
  {
    hide Runs, After, Reports;
    assert Init(sys).tallies == Fold(sys.config.numMiners, []);
    ReportsArrive(sys, Init(sys), steps, sys.config.numMiners, []);
    assert [] + Init(sys).queue + Reports(sys, Init(sys), steps) == Reports(sys, Init(sys), steps);
  }
}
