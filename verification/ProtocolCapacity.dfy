/** The ledger's capacity when several validators race past the unlocked capacity test. */
module ProtocolCapacity {
  import opened Data
  import opened Sums
  import opened Protocol
  import opened Pow
  import opened Chain
  import opened PoolSpec

  function ClearedOne(x: Validator): int { if x.Cleared? then 1 else 0 }

  /** Validators ever created never exceed three, and every validator that has passed the
      capacity test but not yet appended has its place reserved in the bound. */
  ghost predicate Bounded(sys: System, s: State) {
    && 1 <= |s.validators| == s.active <= 3
    && |s.ledger| + Sum(s.validators, ClearedOne) < sys.config.maxBlocks + |s.validators|
  }

  /** One validator changes: it becomes cleared only while the ledger has room, and an append
      takes a cleared validator's place. */
  lemma ValidatorBounded(sys: System, s: State, t: State, v: nat, x: Validator)
    requires Bounded(sys, s) && ValidatorAt(s, v)
    requires t.validators == s.validators[v := x] && t.active == s.active
    requires || (x.Cleared? && |t.ledger| == |s.ledger| < sys.config.maxBlocks)
             || (!x.Cleared? && |t.ledger| == |s.ledger| + ClearedOne(s.validators[v]))
             || (!x.Cleared? && |t.ledger| == |s.ledger|)
    ensures Bounded(sys, t)
  {
    hide Sum;
    SumUpdate(s.validators, v, x, ClearedOne);
    SumWithin(t.validators, ClearedOne);
  }

  lemma ValidatorStepBounded(sys: System, s: State, step: Step)
    requires Bounded(sys, s) && Enabled(sys, s, step)
    requires step.Receive? || step.CheckLink? || step.CheckPool? || step.CheckCapacity? || step.Append?
          || step.Remove? || step.GiveBackRefused? || step.Report? || step.Exit?
    ensures Bounded(sys, Do(sys, s, step))
  {
    hide Accepts, Check, ReturnFirst, PoolSpec.Remove, Links, Tip, PercentFull, Revived, RewardSum, Bounded;
    var t := Do(sys, s, step);
    ValidatorBounded(sys, s, t, step.v, t.validators[step.v]);
  }

  lemma BoundedStep(sys: System, s: State, step: Step)
    requires Bounded(sys, s) && Enabled(sys, s, step)
    ensures Bounded(sys, Do(sys, s, step))
  {
    hide Name, Accepts, Finds, Fails, Insert, Reserve, AgeAll, ReturnAll, Tip, PercentFull, Revived, Draft, NewTx, Sum;
    match step
    case Fork => SumAppend(s.validators, Ready, ClearedOne);
    case Receive(_) => ValidatorStepBounded(sys, s, step);
    case CheckLink(_) => ValidatorStepBounded(sys, s, step);
    case CheckPool(_) => ValidatorStepBounded(sys, s, step);
    case CheckCapacity(_) => ValidatorStepBounded(sys, s, step);
    case Append(_) => ValidatorStepBounded(sys, s, step);
    case Remove(_) => ValidatorStepBounded(sys, s, step);
    case GiveBackRefused(_) => ValidatorStepBounded(sys, s, step);
    case Report(_, _) => ValidatorStepBounded(sys, s, step);
    case Exit(_) => ValidatorStepBounded(sys, s, step);
    case _ =>
  }

  lemma BoundedAlways(sys: System, s: State)
    requires Reachable(sys, s)
    ensures Bounded(sys, s)
  {
    hide Bounded;
    forall s, step | Bounded(sys, s) && Enabled(sys, s, step) ensures Bounded(sys, Do(sys, s, step)) {
      BoundedStep(sys, s, step);
    }
    if ValidConfig(sys.config) {
      BoundedAtStart(sys);
    }
    InductiveIsInvariant(sys, s => Bounded(sys, s), s);
  }

  lemma BoundedAtStart(sys: System)
    requires ValidConfig(sys.config)
    ensures Bounded(sys, Init(sys))
  {
    assert [Ready] == [] + [Ready];
    SumAppend([], Ready, ClearedOne);
  }

  /** In every run the ledger overruns its capacity by at most one block per extra validator,
      and there are never more than three validators: a lone validator never overruns it. */
  lemma CapacityUnderRaces(sys: System, s: State)
    requires Reachable(sys, s)
    ensures |s.ledger| <= sys.config.maxBlocks + |s.validators| - 1
    ensures |s.validators| <= 3 && |s.ledger| <= sys.config.maxBlocks + 2
    ensures |s.validators| == 1 ==> |s.ledger| <= sys.config.maxBlocks
  {
    BoundedAlways(sys, s);
    SumWithin(s.validators, ClearedOne);
  }

  /** The overrun is real: once two validators have passed the test for the last free place,
      both appends go through. */
  lemma TwoClearedOverrun(sys: System, s: State, u: nat, v: nat)
    requires u != v && ValidatorAt(s, u) && ValidatorAt(s, v)
    requires s.validators[u].Cleared? && s.validators[v].Cleared?
    requires |s.ledger| == sys.config.maxBlocks - 1
    ensures Runs(sys, s, [Append(u), Append(v)])
    ensures |After(sys, s, [Append(u), Append(v)]).ledger| == sys.config.maxBlocks + 1
  {
    var t := Do(sys, s, Append(u));
    assert t.validators[v] == s.validators[v];
    assert [Append(v)] == [Append(v)] + [] && [Append(u), Append(v)] == [Append(u)] + [Append(v)];
    FirstStep(sys, t, Append(v), []);
    FirstStep(sys, s, Append(u), [Append(v)]);
  }

  ghost predicate AllAppends(steps: seq<Step>) {
    forall i :: 0 <= i < |steps| ==> steps[i].Append?
  }

  /** Appends can follow one another exactly as long as there are validators past the test. */
  lemma {:induction false} AppendsAlone(sys: System, s: State, steps: seq<Step>)
    requires AllAppends(steps) && Runs(sys, s, steps)
    ensures |After(sys, s, steps).ledger| == |s.ledger| + |steps|
    ensures |steps| <= Sum(s.validators, ClearedOne)
    decreases |steps|
  {
    hide Sum;
    if steps == [] {
      SumWithin(s.validators, ClearedOne);
    } else {
      var t := Do(sys, s, steps[0]);
      SumUpdate(s.validators, steps[0].v, t.validators[steps[0].v], ClearedOne);
      AppendsAlone(sys, t, steps[1..]);
    }
  }

  lemma {:induction false} EveryoneAppends(sys: System, s: State) returns (steps: seq<Step>)
    ensures AllAppends(steps) && Runs(sys, s, steps)
    ensures |After(sys, s, steps).ledger| == |s.ledger| + Sum(s.validators, ClearedOne)
    decreases Sum(s.validators, ClearedOne)
  {
    hide Sum;
    SumWithin(s.validators, ClearedOne);
    if Sum(s.validators, ClearedOne) == 0 {
      steps := [];
    } else {
      var v := SumFinds(s.validators, ClearedOne);
      var t := Do(sys, s, Append(v));
      SumUpdate(s.validators, v, t.validators[v], ClearedOne);
      var rest := EveryoneAppends(sys, t);
      FirstStep(sys, s, Append(v), rest);
      steps := [Append(v)] + rest;
    }
  }

  /** From any state, appends alone can push the ledger past its capacity if and only if the blocks
      in it and the validators already past the test are together too many. */
  lemma OverrunByAppendsIff(sys: System, s: State)
    ensures (exists steps :: AllAppends(steps) && Runs(sys, s, steps) && |After(sys, s, steps).ledger| > sys.config.maxBlocks)
       <==> |s.ledger| + Sum(s.validators, ClearedOne) > sys.config.maxBlocks
  {
    hide Sum, Runs, After, AllAppends;
    var all := EveryoneAppends(sys, s);
    forall steps | AllAppends(steps) && Runs(sys, s, steps)
      ensures |After(sys, s, steps).ledger| <= |s.ledger| + Sum(s.validators, ClearedOne)
    {
      AppendsAlone(sys, s, steps);
    }
  }
}
