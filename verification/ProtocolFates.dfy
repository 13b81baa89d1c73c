/** What can become of a transaction: at any time it is waiting in the pool, on its way, committed, or
    lost; and exactly which steps lose one. */
module ProtocolFates {
  import opened Bytes
  import opened Data
  import opened TxIds
  import opened Pow
  import opened Chain
  import opened PoolSpec
  import opened Protocol
  import opened ProtocolCustody
  import opened ProtocolAgeing
  import opened ProtocolSafety
  import opened ProtocolShape
  import opened ProtocolLoss

  ghost predicate Flying(s: State, name: Bytes) {
    exists ts :: InFlight(s, ts) && name in Names(ts)
  }

  /** Out of circulation without being committed. */
  ghost predicate Lost(s: State, name: Bytes) {
    Gone(s, name) && !Committed(s.ledger, name)
  }

  ghost predicate Accounted(s: State, name: Bytes) {
    IsLive(s.pool, name) || Flying(s, name) || Committed(s.ledger, name)
  }

  lemma LostIsUnaccounted(s: State, name: Bytes)
    requires name != [] && Issued(s.counters, name)
    ensures Lost(s, name) <==> !Accounted(s, name)
  {
    hide Names, Issued, IsLive, Committed, InFlight;
  }

  // ----- who lets go of what -----------------------------------------------------------------------------

  /** The transactions that a step takes from whoever carries them without passing them on. */
  ghost function Released(sys: System, s: State, step: Step): seq<Transaction>
    requires Enabled(sys, s, step)
  {
    match step
    case GiveBack(i) => s.miners[i].transactions
    case CheckLink(v) =>
      var b := s.validators[v].m.block;
      if Accepts(sys.h, b) && Links(b, Tip(Hasher(sys.h), s.ledger)) then [] else b.transactions
    case CheckPool(v) =>
      var ts := s.validators[v].m.block.transactions;
      if Check(s.pool, ts).1 then [] else ts
    case GiveBackRefused(v) => s.validators[v].m.block.transactions
    case _ => []
  }

  /** The causes of loss: an insert that finds no empty slot; a refused previous hash; a pool check that
      stops before the transaction; and a return, by a miner or by a validator that finds the
      ledger full, after the transaction's slot has been reused. */
  ghost predicate Loses(sys: System, s: State, step: Step, name: Bytes)
    requires Enabled(sys, s, step)
  {
    match step
    case Generate(pid, d) => name == IdText(pid, Counter(s, pid)) && FirstEmpty(s.pool) == |s.pool|
    case CheckLink(v) =>
      var b := s.validators[v].m.block;
      name in Names(b.transactions) && !Links(b, Tip(Hasher(sys.h), s.ledger))
    case CheckPool(v) =>
      var ts := s.validators[v].m.block.transactions;
      name in Names(ts[FoundPrefix(s.pool, ts)..])
    case GiveBackRefused(v) => name in Names(s.validators[v].m.block.transactions) && !HasSlot(s.pool, name)
    case GiveBack(i) => name in Names(s.miners[i].transactions) && !HasSlot(s.pool, name)
    case _ => false
  }

  // ----- nothing else is lost -------------------------------------------------------------------------------

  lemma SelectKeepsOrTakes(pool: seq<Slot>, k: nat, j: nat)
    requires j < |pool| && !pool[j].empty
    ensures var (next, got) := Reserve(pool, k);
            || next[j] == pool[j]
            || (got.Some? && Name(pool[j].tx) in Names(got.value))
  {
    hide Name;
    var p := Picked(pool, k, |pool|);
    if |p| == k && j in p {
      var i :| 0 <= i < |p| && p[i] == j;
      assert Copies(pool, p)[i] == pool[j].tx;
    }
  }

  /** A waiting transaction is still waiting after any step, unless it has just been selected. */
  lemma LiveStays(sys: System, s: State, step: Step, name: Bytes)
    requires Reachable(sys, s) && Enabled(sys, s, step) && IsLive(s.pool, name)
    ensures IsLive(Do(sys, s, step).pool, name) || Flying(Do(sys, s, step), name)
  {
    var j :| 0 <= j < |s.pool| && !s.pool[j].empty && Name(s.pool[j].tx) == name;
    if step.Remove? {
      RemoveSparesWaiting(sys, s, step.v);
      assert Do(sys, s, step).pool[j] == s.pool[j];
    } else if step.Select? {
      SelectedFlies(sys, s, step.i, j);
    } else {
      SlotStays(sys, s, step, j);
    }
  }

  lemma SelectedFlies(sys: System, s: State, i: nat, j: nat)
    requires Enabled(sys, s, Select(i)) && j < |s.pool| && !s.pool[j].empty
    ensures var t := Do(sys, s, Select(i));
            IsLive(t.pool, Name(s.pool[j].tx)) || Flying(t, Name(s.pool[j].tx))
  {
    hide Name, Reserve, Names;
    SelectKeepsOrTakes(s.pool, sys.config.perBlock, j);
    var t := Do(sys, s, Select(i));
    match Reserve(s.pool, sys.config.perBlock).1
    case None => assert t.pool[j] == s.pool[j];
    case Some(ts) =>
      assert Holds(t.miners[i]) && Held(t.miners[i]) == ts;
      assert InFlight(t, ts);
      if Name(s.pool[j].tx) !in Names(ts) {
        assert t.pool[j] == s.pool[j];
      }
  }

  lemma PoolKept(sys: System, s: State, step: Step)
    requires Enabled(sys, s, step)
    requires !step.Generate? && !step.Select? && !step.GiveBack? && !step.CheckPool? && !step.Remove?
          && !step.GiveBackRefused? && !step.Age?
    ensures Do(sys, s, step).pool == s.pool
  {
    hide Name, Accepts, Finds, Fails, Links, Tip, Hasher, RewardSum, NewBlock, Statistics.Record;
  }

  lemma SlotReturned(sys: System, s: State, step: Step, j: nat)
    requires Enabled(sys, s, step) && (step.GiveBack? || step.CheckPool? || step.GiveBackRefused?)
    requires j < |s.pool| && !s.pool[j].empty
    ensures var pool := Do(sys, s, step).pool;
            j < |pool| && !pool[j].empty && Name(pool[j].tx) == Name(s.pool[j].tx)
  {
    hide Name, Names, ReturnAll, ReturnFirst, FoundPrefix, PercentFull, Revived;
    match step
    case GiveBack(i) => ReturnAt(s.pool, s.miners[i].transactions, j);
    case CheckPool(v) =>
      var ts := s.validators[v].m.block.transactions;
      ReturnFirstTouches(s.pool, ts[..FoundPrefix(s.pool, ts)]);
    case GiveBackRefused(v) => ReturnFirstTouches(s.pool, s.validators[v].m.block.transactions);
  }

  lemma SlotInserted(sys: System, s: State, pid: nat, d: Draw, j: nat)
    requires Enabled(sys, s, Generate(pid, d)) && j < |s.pool| && !s.pool[j].empty
    ensures var pool := Do(sys, s, Generate(pid, d)).pool; j < |pool| && pool[j] == s.pool[j]
  {
    hide Name, IsLiveDuplicate, PercentFull, NewTx;
  }

  lemma SlotAged(sys: System, s: State, step: Step, j: nat)
    requires Enabled(sys, s, step) && step.Age? && j < |s.pool| && !s.pool[j].empty
    ensures var pool := Do(sys, s, step).pool;
            j < |pool| && !pool[j].empty && Name(pool[j].tx) == Name(s.pool[j].tx)
  {
    hide Name, AgeAll;
    AgeKeepsNames(s.pool);
  }

  /** Only a selection or a removal can make a slot stop being live. */
  lemma SlotStays(sys: System, s: State, step: Step, j: nat)
    requires Enabled(sys, s, step) && !step.Remove? && !step.Select? && j < |s.pool| && !s.pool[j].empty
    ensures var pool := Do(sys, s, step).pool;
            j < |pool| && !pool[j].empty && Name(pool[j].tx) == Name(s.pool[j].tx)
  {
    hide Name, Enabled, Possible, Do;
    match step
    case Generate(pid, d) => SlotInserted(sys, s, pid, d, j);
    case Age(_) => SlotAged(sys, s, step, j);
    case GiveBack(_) => SlotReturned(sys, s, step, j);
    case CheckPool(_) => SlotReturned(sys, s, step, j);
    case GiveBackRefused(_) => SlotReturned(sys, s, step, j);
    case _ => PoolKept(sys, s, step);
  }

  ghost predicate PassedOn(sys: System, s: State, step: Step, ts: seq<Transaction>)
    requires Enabled(sys, s, step)
  {
    || InFlight(Do(sys, s, step), ts)
    || Released(sys, s, step) == ts
    || (step.Append? && s.validators[step.v].m.block.transactions == ts)
  }

  lemma MinerPassesOn(sys: System, s: State, step: Step, i: nat)
    requires Enabled(sys, s, step) && MinerAt(s, i) && Holds(s.miners[i])
    ensures PassedOn(sys, s, step, Held(s.miners[i]))
  {
    hide Name, Finds, Fails, Accepts, Insert, Reserve, Check, AgeAll, ReturnAll, ReturnFirst, PoolSpec.Remove,
         Links, Tip, PercentFull, Revived, NewTx, RewardSum, NewBlock;
    DraftHolds(s, step);
    var t := Do(sys, s, step);
    assert |t.miners| == |s.miners|;
    if step == Send(i) {
      assert t.pipe[|s.pipe|].block.transactions == Held(s.miners[i]);
    } else if step != GiveBack(i) {
      assert Holds(t.miners[i]) && Held(t.miners[i]) == Held(s.miners[i]);
    }
  }

  lemma PipePassesOn(sys: System, s: State, step: Step, n: nat)
    requires Enabled(sys, s, step) && n < |s.pipe|
    requires 0 < |s.pipe[n].block.transactions| <= sys.config.perBlock
    ensures PassedOn(sys, s, step, s.pipe[n].block.transactions)
  {
    hide Name, Finds, Fails, Accepts, Insert, Reserve, Check, AgeAll, ReturnAll, ReturnFirst, PoolSpec.Remove,
         Links, Tip, PercentFull, Revived, NewTx, RewardSum, NewBlock;
    var t := Do(sys, s, step);
    if step.Receive? && n == 0 {
      assert Carries(t.validators[step.v]) && t.validators[step.v].m == s.pipe[0];
    } else if step.Receive? {
      assert t.pipe[n - 1] == s.pipe[n];
    } else {
      assert t.pipe[n] == s.pipe[n];
    }
  }

  lemma ValidatorPassesOn(sys: System, s: State, step: Step, v: nat)
    requires Enabled(sys, s, step) && ValidatorAt(s, v) && Carries(s.validators[v])
    ensures PassedOn(sys, s, step, s.validators[v].m.block.transactions)
  {
    hide Name, Finds, Fails, Accepts, Insert, Reserve, AgeAll, ReturnAll, ReturnFirst, PoolSpec.Remove, FoundPrefix,
         Links, Tip, PercentFull, Revived, NewTx, RewardSum, NewBlock;
    var t := Do(sys, s, step);
    assert v < |t.validators|;
    if Carries(t.validators[v]) {
      assert t.validators[v].m == s.validators[v].m;
    }
  }

  /** Whatever is in flight stays in flight, unless the step releases or appends it. */
  lemma FlightStays(sys: System, s: State, step: Step, ts: seq<Transaction>)
    requires Reachable(sys, s) && Enabled(sys, s, step) && InFlight(s, ts)
    ensures PassedOn(sys, s, step, ts)
  {
    InFlightIsReserved(sys, s, ts);
    PoolIsSound(sys, s);
    hide Enabled, Possible, Do, Holds, Held, Reachable, PassedOn, AllNamed, DistinctNames, UniqueNames, UniqueLiveNames;
    if i :| 0 <= i < |s.miners| && Holds(s.miners[i]) && Held(s.miners[i]) == ts {
      MinerPassesOn(sys, s, step, i);
    } else if n :| 0 <= n < |s.pipe| && s.pipe[n].block.transactions == ts {
      PipePassesOn(sys, s, step, n);
    } else {
      var v :| 0 <= v < |s.validators| && Carries(s.validators[v]) && s.validators[v].m.block.transactions == ts;
      ValidatorPassesOn(sys, s, step, v);
    }
  }

  lemma AccountedStays(sys: System, s: State, step: Step, name: Bytes)
    requires Reachable(sys, s) && Enabled(sys, s, step) && Accounted(s, name)
    requires name !in Names(Released(sys, s, step))
    ensures Accounted(Do(sys, s, step), name)
  {
    hide Names, Reachable, IsLive, InFlight;
    AppendOnlyLedger(sys, s, step);
    hide Enabled, Possible, Do, Released;
    var t := Do(sys, s, step);
    if IsLive(s.pool, name) {
      LiveStays(sys, s, step, name);
    } else if Committed(s.ledger, name) {
      var b :| 0 <= b < |s.ledger| && name in Names(s.ledger[b].transactions);
      assert t.ledger[b] == s.ledger[b];
    } else {
      var ts :| InFlight(s, ts) && name in Names(ts);
      FlightStays(sys, s, step, ts);
      if step.Append? && !InFlight(t, ts) {
        assert name in Names(t.ledger[|s.ledger|].transactions);
      }
    }
  }

  // ----- what is accounted for was issued ----------------------------------------------------------------------

  lemma AccountedIsIssued(sys: System, s: State, name: Bytes)
    requires Reachable(sys, s) && Accounted(s, name)
    ensures name != [] && Issued(s.counters, name)
  {
    hide Name, Reachable, Growth, Issued, InFlight, Gone;
    if Committed(s.ledger, name) {
      CommittedIsGone(sys, s, name);
      GoneIsIssued(s, name);
    } else {
      ExplainedAlways(sys, s);
      var w: Books :| Custody(sys, s, w) && Growth(s, w);
      if IsLive(s.pool, name) {
        LiveIsIssued(sys, s, w, name);
      } else {
        var ts :| InFlight(s, ts) && name in Names(ts);
        var who := InFlightOwned(sys, s, w, ts);
        var i := NamedAt(ts, name);
        HeldFacts(sys, s, w, ts, who, i);
      }
    }
  }

  lemma GoneIsIssued(s: State, name: Bytes)
    requires Gone(s, name)
    ensures name != [] && Issued(s.counters, name)
  {
  }

  lemma LiveIsIssued(sys: System, s: State, w: Books, name: Bytes)
    requires Custody(sys, s, w) && IsLive(s.pool, name)
    ensures name != [] && Issued(s.counters, name)
  {
    hide Name, Issued, UniqueNames, MinersOk, PipeOk, ValidatorsOk, LedgerOk, AppendedOk;
  }

  lemma NamedAt(ts: seq<Transaction>, name: Bytes) returns (i: nat)
    requires name in Names(ts)
    ensures i < |ts| && Name(ts[i]) == name
  {
    hide Name;
    i :| 0 <= i < |ts| && Name(ts[i]) == name;
  }

  /** A generator's step issues its own identifier and no other. */
  lemma IssuedBy(counters: map<nat, nat>, pid: nat, c: nat, name: Bytes)
    requires c == (if pid in counters then counters[pid] else 0)
    ensures Issued(counters[pid := c + 1], name) <==> Issued(counters, name) || name == IdText(pid, c)
  {
    hide IdText;
    var next := counters[pid := c + 1];
    if Issued(counters, name) {
      IssuedGrows(counters, pid, c + 1, name);
    }
    if name == IdText(pid, c) {
      IssuedNow(next, pid, c);
    }
    if Issued(next, name) {
      var p: nat, q: nat :| p in next && q < next[p] && name == IdText(p, q);
      assert (p == pid && q == c) || (p in counters && q < counters[p]);
    }
  }

  lemma IssuedStays(sys: System, s: State, step: Step)
    requires Enabled(sys, s, step) && !step.Generate?
    ensures Do(sys, s, step).counters == s.counters
  {
    hide Name, Finds, Fails, Accepts, Reserve, Check, AgeAll, ReturnAll, ReturnFirst, PoolSpec.Remove,
         Links, Tip, PercentFull, Revived, RewardSum, NewBlock;
  }

  // ----- exactly what is lost ------------------------------------------------------------------------------------

  lemma GenerateLoses(sys: System, s: State, pid: nat, d: Draw, name: Bytes)
    requires Reachable(sys, s) && Enabled(sys, s, Generate(pid, d)) && !Lost(s, name)
    ensures Lost(Do(sys, s, Generate(pid, d)), name) <==> Loses(sys, s, Generate(pid, d), name)
  {
    hide Name, IdText, Issued, Reachable, Names, NewTx, InFlight, Committed, PercentFull;
    var c, t := Counter(s, pid), Do(sys, s, Generate(pid, d));
    IssuedBy(s.counters, pid, c, name);
    assert t.miners == s.miners && t.pipe == s.pipe && t.validators == s.validators && t.ledger == s.ledger;
    SameFlights(s, t);
    if name == IdText(pid, c) {
      NewIsLiveIff(sys, s, pid, d);
      if Accounted(s, name) {
        AccountedIsIssued(sys, s, name);
      }
      IdNotEmpty(pid, c);
      LostIsUnaccounted(t, name);
    } else {
      if Issued(s.counters, name) && name != [] {
        LostIsUnaccounted(s, name);
        NoNames();
        AccountedStays(sys, s, Generate(pid, d), name);
        LostIsUnaccounted(t, name);
      }
    }
  }

  lemma NoNames()
    ensures Names([]) == {}
  {
  }

  lemma IdNotEmpty(pid: nat, c: nat)
    ensures IdText(pid, c) != []
  {
  }

  lemma SameFlights(s: State, t: State)
    requires t.miners == s.miners && t.pipe == s.pipe && t.validators == s.validators
    ensures forall ts :: InFlight(t, ts) <==> InFlight(s, ts)
  {
  }

  /** A fresh transaction is refused only for lack of an empty slot. */
  lemma NewIsLiveIff(sys: System, s: State, pid: nat, d: Draw)
    requires Reachable(sys, s) && Enabled(sys, s, Generate(pid, d))
    ensures IsLive(Do(sys, s, Generate(pid, d)).pool, IdText(pid, Counter(s, pid))) <==> FirstEmpty(s.pool) < |s.pool|
  {
    hide Name, IdText, Issued, Reachable, NewTx, PercentFull;
    var name := IdText(pid, Counter(s, pid));
    var tx, p := NewTx(pid, Counter(s, pid), d), FirstEmpty(s.pool);
    if IsLive(s.pool, name) {
      AccountedIsIssued(sys, s, name);
    }
    assert !IsLiveDuplicate(s.pool, p, tx);
    var t := Do(sys, s, Generate(pid, d));
    if p < |s.pool| {
      assert t.pool[p].tx == tx && !t.pool[p].empty;
    }
  }

  lemma ReleasingLoses(sys: System, s: State, step: Step, name: Bytes)
    requires Reachable(sys, s) && Enabled(sys, s, step) && name in Names(Released(sys, s, step))
    ensures Lost(Do(sys, s, step), name) <==> Loses(sys, s, step, name)
  {
    hide Name, Reachable, Do, Gone, Committed, IsLive, HasSlot, InFlight, FoundPrefix, Runs, After, Links, Tip, Hasher, Accepts;
    match step
    case GiveBack(i) =>
      var n := NamedAt(s.miners[i].transactions, name);
      MinerGiveBackReturnsIff(sys, s, i, n);
    case GiveBackRefused(v) =>
      var n := NamedAt(s.validators[v].m.block.transactions, name);
      FullLedgerReturnsIff(sys, s, v, n);
    case CheckLink(v) => LinkLoses(sys, s, v, name);
    case CheckPool(v) => CheckLoses(sys, s, v, name);
    case _ =>
  }

  lemma LinkLoses(sys: System, s: State, v: nat, name: Bytes)
    requires Reachable(sys, s) && Enabled(sys, s, CheckLink(v)) && name in Names(Released(sys, s, CheckLink(v)))
    ensures Lost(Do(sys, s, CheckLink(v)), name) && Loses(sys, s, CheckLink(v), name)
  {
    hide Name, Reachable, Gone, Committed, IsLive, InFlight, Links, Tip, Hasher, Accepts;
    ReceivedBlocksPassPow(sys, s, v);
    var n := NamedAt(s.validators[v].m.block.transactions, name);
    var t := Do(sys, s, CheckLink(v));
    hide Do;
    NoStepsRun(sys, t);
    LinkRefusalLoses(sys, s, v, n, []);
  }

  lemma NoStepsRun(sys: System, s: State)
    ensures Runs(sys, s, []) && After(sys, s, []) == s
  {
  }

  lemma CheckLoses(sys: System, s: State, v: nat, name: Bytes)
    requires Reachable(sys, s) && Enabled(sys, s, CheckPool(v)) && name in Names(Released(sys, s, CheckPool(v)))
    ensures Lost(Do(sys, s, CheckPool(v)), name) <==> Loses(sys, s, CheckPool(v), name)
  {
    hide Name, Reachable, Do, Gone, Committed, IsLive, InFlight, FoundPrefix;
    var ts := s.validators[v].m.block.transactions;
    var n := NamedAt(ts, name);
    PoolRefusalFrame(sys, s, v);
    InFlightIsReserved(sys, s, ts);
    SuffixMembership(ts, FoundPrefix(s.pool, ts), n);
    PoolRefusalReturnsIff(sys, s, v, n);
  }

  lemma SuffixMembership(ts: seq<Transaction>, p: nat, i: nat)
    requires DistinctNames(ts) && p <= |ts| && i < |ts|
    ensures Name(ts[i]) in Names(ts[p..]) <==> p <= i
  {
    hide Name;
    assert p <= i ==> ts[p..][i - p] == ts[i];
    assert forall j :: p <= j < |ts| ==> ts[p..][j - p] == ts[j];
    if Name(ts[i]) in Names(ts[p..]) {
      var j := NamedAt(ts[p..], Name(ts[i]));
      assert ts[p..][j] == ts[p + j];
    }
  }

  lemma OnlyReleasedAreLost(sys: System, s: State, step: Step, name: Bytes)
    requires Reachable(sys, s) && Enabled(sys, s, step) && !step.Generate?
    requires name !in Names(Released(sys, s, step))
    ensures !Loses(sys, s, step, name)
  {
    hide Name, Reachable, HasSlot, Links, Tip, Hasher, Accepts;
    if step.CheckPool? {
      var ts := s.validators[step.v].m.block.transactions;
      NamesOfSuffix(ts, FoundPrefix(s.pool, ts));
    }
  }

  lemma NamesOfSuffix(ts: seq<Transaction>, p: nat)
    requires p <= |ts|
    ensures Names(ts[p..]) <= Names(ts)
    ensures p == |ts| ==> Names(ts[p..]) == {}
  {
    hide Name;
  }

  /** A step loses a transaction exactly if it is one of the causes. */
  lemma LostByStepIff(sys: System, s: State, step: Step, name: Bytes)
    requires Reachable(sys, s) && Enabled(sys, s, step) && !Lost(s, name)
    ensures Lost(Do(sys, s, step), name) <==> Loses(sys, s, step, name)
  {
    hide Reachable, Enabled, Possible, Do, Loses, Released, Lost, Accounted, Names, Issued;
    if step.Generate? {
      GenerateLoses(sys, s, step.pid, step.draw, name);
    } else if name in Names(Released(sys, s, step)) {
      ReleasingLoses(sys, s, step, name);
    } else {
      OnlyReleasedAreLost(sys, s, step, name);
      IssuedStays(sys, s, step);
      if name != [] && Issued(s.counters, name) {
        LostIsUnaccounted(s, name);
        AccountedStays(sys, s, step, name);
        LostIsUnaccounted(Do(sys, s, step), name);
      } else {
        LostIsIssued(Do(sys, s, step), name);
      }
    }
  }

  lemma LostIsIssued(s: State, name: Bytes)
    ensures Lost(s, name) ==> name != [] && Issued(s.counters, name)
  {
  }

  ghost predicate LosesAt(sys: System, steps: seq<Step>, n: nat, name: Bytes)
    requires Runs(sys, Init(sys), steps) && n < |steps|
  {
    LastStep(sys, Init(sys), steps, n);
    Loses(sys, After(sys, Init(sys), steps[..n]), steps[n], name)
  }

  /** Over whole runs: a transaction is lost at the end if and only if some step of the run was one of
      the causes for it. */
  lemma {:induction false} LostInRunIff(sys: System, steps: seq<Step>, name: Bytes)
    requires ValidConfig(sys.config) && Runs(sys, Init(sys), steps)
    ensures Lost(After(sys, Init(sys), steps), name) <==> exists n :: 0 <= n < |steps| && LosesAt(sys, steps, n, name)
    decreases |steps|
  {
    hide Enabled, Possible, Do, Loses, Init, Runs, After, Lost;
    if steps == [] {
      NothingLostAtStart(sys, name);
    } else {
      var n := |steps| - 1;
      LastStep(sys, Init(sys), steps, n);
      assert steps[..n + 1] == steps;
      var pre := steps[..n];
      var u := After(sys, Init(sys), pre);
      LostInRunIff(sys, pre, name);
      assert Reachable(sys, u);
      forall m | 0 <= m < n ensures LosesAt(sys, steps, m, name) <==> LosesAt(sys, pre, m, name) {
        assert pre[..m] == steps[..m];
      }
      assert LosesAt(sys, steps, n, name) <==> Loses(sys, u, steps[n], name);
      if Lost(u, name) {
        var m :| 0 <= m < n && LosesAt(sys, pre, m, name);
        assert LosesAt(sys, steps, m, name);
        StaysLost(sys, u, steps[n], name);
      } else {
        assert forall m :: 0 <= m < n ==> !LosesAt(sys, steps, m, name);
        LostByStepIff(sys, u, steps[n], name);
      }
    }
  }

  lemma StaysLost(sys: System, s: State, step: Step, name: Bytes)
    requires Lost(s, name) && Enabled(sys, s, step)
    ensures Lost(Do(sys, s, step), name)
  {
    hide Gone, Committed, Enabled, Possible, Do;
    GoneStep(sys, s, step, name);
  }

  lemma NothingLostAtStart(sys: System, name: Bytes)
    ensures Runs(sys, Init(sys), []) && !Lost(After(sys, Init(sys), []), name)
  {
    hide Names, IdText;
  }

  // ----- one fate at a time -----------------------------------------------------------------------------------------

  /** In every run each identifier ever used has exactly one fate: waiting, on its way, committed or
      lost. */
  lemma OneFate(sys: System, s: State, name: Bytes)
    requires Reachable(sys, s) && name != [] && Issued(s.counters, name)
    ensures IsLive(s.pool, name) || Flying(s, name) || Committed(s.ledger, name) || Lost(s, name)
    ensures !(IsLive(s.pool, name) && Flying(s, name))
    ensures !(IsLive(s.pool, name) && Committed(s.ledger, name))
    ensures !(Flying(s, name) && Committed(s.ledger, name))
    ensures Lost(s, name) ==> !IsLive(s.pool, name) && !Flying(s, name) && !Committed(s.ledger, name)
  {
    LostIsUnaccounted(s, name);
    hide Name, Reachable, Issued, InFlight, Lost;
    if Flying(s, name) {
      var ts :| InFlight(s, ts) && name in Names(ts);
      var i := NamedAt(ts, name);
      InFlightIsReserved(sys, s, ts);
    }
    if Committed(s.ledger, name) {
      CommittedIsGone(sys, s, name);
    }
  }
}
