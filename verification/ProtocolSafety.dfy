/** What custody and growth mean for whoever watches a run. */
module ProtocolSafety {
  import opened Data
  import opened PoolSpec
  import opened Protocol
  import opened ProtocolCustody
  import opened ProtocolAgeing

  /** No transaction is committed twice, in any interleaving of any number of generators, miners
      and validators. */
  lemma NoDoubleCommit(sys: System, s: State)
    requires Reachable(sys, s)
    ensures forall b, i, c, j ::
      && 0 <= b < |s.ledger| && 0 <= i < |s.ledger[b].transactions|
      && 0 <= c < |s.ledger| && 0 <= j < |s.ledger[c].transactions|
      && Name(s.ledger[b].transactions[i]) == Name(s.ledger[c].transactions[j])
      ==> b == c && i == j
  {
    hide Name, Custody, Growth, Reachable;
    ExplainedAlways(sys, s);
    var w: Books :| Custody(sys, s, w) && Growth(s, w);
    forall b | 0 <= b < |s.ledger|
      ensures Owned(w.owner, sys.config.perBlock, s.ledger[b].transactions, InLedger(b))
    {
      LedgerOwned(sys, s, w, b);
    }
  }

  /** A block between selection and the ledger carries exactly perBlock distinct transactions;
      none of them is committed, and no live slot offers one of them to another miner. */
  lemma InFlightIsReserved(sys: System, s: State, ts: seq<Transaction>)
    requires Reachable(sys, s) && InFlight(s, ts)
    ensures |ts| == sys.config.perBlock && AllNamed(ts) && DistinctNames(ts)
    ensures forall j, i :: 0 <= j < |s.pool| && 0 <= i < |ts| && Name(s.pool[j].tx) == Name(ts[i]) ==> s.pool[j].empty
    ensures forall b, j, i :: 0 <= b < |s.ledger| && 0 <= j < |s.ledger[b].transactions| && 0 <= i < |ts| ==>
      Name(s.ledger[b].transactions[j]) != Name(ts[i])
  {
    hide Name, Growth, Reachable, InFlight, AllNamed, DistinctNames;
    ExplainedAlways(sys, s);
    var w: Books :| Custody(sys, s, w) && Growth(s, w);
    var who := InFlightOwned(sys, s, w, ts);
    assert SlotsOk(s.pool, w.owner);
    forall b | 0 <= b < |s.ledger|
      ensures Owned(w.owner, sys.config.perBlock, s.ledger[b].transactions, InLedger(b))
    {
      LedgerOwned(sys, s, w, b);
    }
    hide Custody, UniqueNames;
    forall i | 0 <= i < |ts| ensures w.owner[Name(ts[i])] == who {
    }
  }

  /** Two miners, two messages in the pipe, or two validators never have a transaction in common,
      nor does one of a kind with one of another. */
  lemma HoldersAreDisjoint(sys: System, s: State)
    requires Reachable(sys, s)
    ensures forall i, j :: 0 <= i < j < |s.miners| && Holds(s.miners[i]) && Holds(s.miners[j]) ==>
      Names(Held(s.miners[i])) !! Names(Held(s.miners[j]))
    ensures forall m, n :: 0 <= m < n < |s.pipe| ==>
      Names(s.pipe[m].block.transactions) !! Names(s.pipe[n].block.transactions)
    ensures forall u, v :: 0 <= u < v < |s.validators| && Carries(s.validators[u]) && Carries(s.validators[v]) ==>
      Names(s.validators[u].m.block.transactions) !! Names(s.validators[v].m.block.transactions)
    ensures forall i, n :: 0 <= i < |s.miners| && 0 <= n < |s.pipe| && Holds(s.miners[i]) ==>
      Names(Held(s.miners[i])) !! Names(s.pipe[n].block.transactions)
    ensures forall i, v :: 0 <= i < |s.miners| && 0 <= v < |s.validators| && Holds(s.miners[i]) && Carries(s.validators[v]) ==>
      Names(Held(s.miners[i])) !! Names(s.validators[v].m.block.transactions)
    ensures forall n, v :: 0 <= n < |s.pipe| && 0 <= v < |s.validators| && Carries(s.validators[v]) ==>
      Names(s.pipe[n].block.transactions) !! Names(s.validators[v].m.block.transactions)
  {
    ExplainedAlways(sys, s);
    var k := sys.config.perBlock;
    var w: Books :| Custody(sys, s, w) && Growth(s, w);
    hide Name, Growth, Reachable, SlotsOk, Owned, Names, Issued, LedgerOk, AppendedOk, Held, Holds;
    forall i | 0 <= i < |s.miners| && Holds(s.miners[i])
      ensures AllWith(w.owner, Names(Held(s.miners[i])), WithMiner(i))
    {
      OwnedNames(w.owner, k, Held(s.miners[i]), WithMiner(i));
    }
    forall n | 0 <= n < |s.pipe|
      ensures AllWith(w.owner, Names(s.pipe[n].block.transactions), InPipe(w.taken + n))
    {
      OwnedNames(w.owner, k, s.pipe[n].block.transactions, InPipe(w.taken + n));
    }
    forall v | 0 <= v < |s.validators| && Carries(s.validators[v])
      ensures AllWith(w.owner, Names(s.validators[v].m.block.transactions), WithValidator(v))
    {
      OwnedNames(w.owner, k, s.validators[v].m.block.transactions, WithValidator(v));
    }
  }

  lemma ExplainedIsSound(sys: System, s: State)
    requires Explained(sys, s)
    ensures sys.config.perBlock > 0
    ensures UniqueNames(s.pool) && UniqueLiveNames(s.pool)
    ensures forall j :: 0 <= j < |s.pool| && !s.pool[j].empty ==> Name(s.pool[j].tx) != []
  {
    hide Name, Growth;
    var w: Books :| Custody(sys, s, w) && Growth(s, w);
    assert SlotsOk(s.pool, w.owner);
  }

  /** The pool never holds a transaction in two slots, and every live slot is named. */
  lemma PoolIsSound(sys: System, s: State)
    requires Reachable(sys, s)
    ensures sys.config.perBlock > 0
    ensures UniqueNames(s.pool) && UniqueLiveNames(s.pool)
    ensures forall j :: 0 <= j < |s.pool| && !s.pool[j].empty ==> Name(s.pool[j].tx) != []
  {
    ExplainedAlways(sys, s);
    ExplainedIsSound(sys, s);
  }

  /** In runs select_transactions succeeds exactly when enough slots are live, so its rollback is
      never reached, and giving back at once restores the pool. */
  lemma SelectionInRuns(sys: System, s: State)
    requires Reachable(sys, s)
    ensures var k := sys.config.perBlock;
            && (Reserve(s.pool, k).1.Some? <==> CountLive(s.pool) >= k)
            && |Picked(s.pool, k, |s.pool|)| == (if CountLive(s.pool) < k then CountLive(s.pool) else k)
            && (Reserve(s.pool, k).1.Some? ==> ReturnAll(Reserve(s.pool, k).0, Reserve(s.pool, k).1.value) == s.pool)
  {
    hide Name, Reachable, Picked, CountLive, ReturnAll, UniqueNames, UniqueLiveNames, Mark;
    PoolIsSound(sys, s);
    PickedLength(s.pool, sys.config.perBlock);
    if Reserve(s.pool, sys.config.perBlock).1.Some? {
      ReturnUndoesReserve(s.pool, sys.config.perBlock);
    }
  }

  /** Taking an appended block's transactions out of the pool frees exactly the slots that still
      show them; all of these were reserved, so that no waiting transaction is lost. */
  lemma RemoveSparesWaiting(sys: System, s: State, v: nat)
    requires Reachable(sys, s) && Enabled(sys, s, Step.Remove(v))
    ensures var ts, next := s.validators[v].m.block.transactions, Do(sys, s, Step.Remove(v)).pool;
            && |next| == |s.pool|
            && forall j :: 0 <= j < |s.pool| ==>
                 && next[j] == (if Name(s.pool[j].tx) in Names(ts) then MakeFree(s.pool[j]) else s.pool[j])
                 && (!s.pool[j].empty ==> next[j] == s.pool[j])
  {
    hide Name, Growth, Reachable, PoolSpec.Remove, PercentFull, UniqueNames, AllNamed;
    var ts := s.validators[v].m.block.transactions;
    ExplainedAlways(sys, s);
    var w: Books :| Custody(sys, s, w) && Growth(s, w);
    var b := AppendedIsOwned(sys, s, w, v);
    OwnedNames(w.owner, sys.config.perBlock, ts, InLedger(b));
    assert SlotsOk(s.pool, w.owner);
    hide Custody;
    forall j | 0 <= j < |s.pool|
      ensures PoolSpec.Remove(s.pool, ts)[j] == if Name(s.pool[j].tx) in Names(ts) then MakeFree(s.pool[j]) else s.pool[j]
    {
      RemoveAt(s.pool, ts, j);
    }
  }

  /** `t` is the transaction that was inserted under its name, with a reward that only waiting has
      raised. */
  ghost predicate ComesFrom(born: Records, t: Transaction) {
    && Name(t) in born && 1 <= born[Name(t)].reward <= 3
    && exists age: nat :: t == Grown(born[Name(t)], age)
  }

  /** The i-th copy of a block in flight is a generated transaction, aged, and the very data of
      any slot that still shows its name. */
  ghost predicate FlightOk(s: State, born: Records, ts: seq<Transaction>, i: nat)
    requires i < |ts|
  {
    && ComesFrom(born, ts[i])
    && forall j :: 0 <= j < |s.pool| && Name(s.pool[j].tx) == Name(ts[i]) ==>
         && s.pool[j].tx == ts[i] && s.pool[j].age >= 0
         && s.pool[j].tx == Grown(born[Name(ts[i])], s.pool[j].age)
  }

  /** Every live slot shows its generated transaction plus one reward per 50 rounds of its age;
      every copy in flight is such a transaction and equals what any slot still shows under its
      name; every committed transaction was generated. */
  ghost predicate ExplainedBy(s: State, born: Records) {
    && (forall j :: 0 <= j < |s.pool| && !s.pool[j].empty ==>
          && ComesFrom(born, s.pool[j].tx) && s.pool[j].age >= 0
          && s.pool[j].tx == Grown(born[Name(s.pool[j].tx)], s.pool[j].age))
    && (forall ts, i :: InFlight(s, ts) && 0 <= i < |ts| ==> FlightOk(s, born, ts, i))
    && (forall b, i :: 0 <= b < |s.ledger| && 0 <= i < |s.ledger[b].transactions| ==>
          ComesFrom(born, s.ledger[b].transactions[i]))
  }

  /** Step n of the run generated `t` and put it into the pool. */
  ghost predicate InsertedAt(sys: System, steps: seq<Step>, n: nat, t: Transaction)
    requires Runs(sys, Init(sys), steps)
  {
    && n < |steps| && steps[n].Generate? && Runs(sys, Init(sys), steps[..n])
    && var u := After(sys, Init(sys), steps[..n]);
       t == NewTx(steps[n].pid, Counter(u, steps[n].pid), steps[n].draw) && Insert(u.pool, t).1.Inserted?
  }

  ghost predicate WasInserted(sys: System, steps: seq<Step>, t: Transaction)
    requires Runs(sys, Init(sys), steps)
  {
    exists n: nat :: InsertedAt(sys, steps, n, t)
  }

  /** What is on record as inserted was inserted, with that very data, by a step of the run. */
  lemma {:induction false} RecordsAreTrue(sys: System, steps: seq<Step>)
    requires Runs(sys, Init(sys), steps)
    ensures var s := After(sys, Init(sys), steps);
            forall name :: name in s.born ==> Name(s.born[name]) == name && WasInserted(sys, steps, s.born[name])
    decreases |steps|
  {
    hide Name, Do, Enabled, Possible, NewTx, Insert, Runs, After;
    if steps == [] {
      NothingBornAtStart(sys);
    } else {
      var n := |steps| - 1;
      LastStep(sys, Init(sys), steps, n);
      assert steps[..n + 1] == steps;
      RecordsAreTrue(sys, steps[..n]);
      var u, s := After(sys, Init(sys), steps[..n]), After(sys, Init(sys), steps);
      BornStep(sys, u, steps[n]);
      forall name | name in s.born ensures Name(s.born[name]) == name && WasInserted(sys, steps, s.born[name]) {
        if name in u.born && s.born[name] == u.born[name] {
          var m: nat :| InsertedAt(sys, steps[..n], m, u.born[name]);
          assert steps[..n][..m] == steps[..m];
          assert InsertedAt(sys, steps, m, s.born[name]);
        } else {
          assert InsertedAt(sys, steps, n, s.born[name]);
        }
      }
    }
  }

  lemma NothingBornAtStart(sys: System)
    ensures Runs(sys, Init(sys), []) && After(sys, Init(sys), []).born == map[]
  {
  }

  lemma BornStep(sys: System, s: State, step: Step)
    requires Enabled(sys, s, step)
    ensures var t := Do(sys, s, step);
            if step.Generate? && Insert(s.pool, NewTx(step.pid, Counter(s, step.pid), step.draw)).1.Inserted?
            then var tx := NewTx(step.pid, Counter(s, step.pid), step.draw); t.born == s.born[Name(tx) := tx]
            else t.born == s.born
  {
    hide Name, Insert, PercentFull, NewTx;
    if step.Generate? {
      assert Do(sys, s, step) == DoGenerate(s, step.pid, step.draw);
    } else {
      RecordsKept(sys, s, step);
    }
  }

  /** Rewards are explained by ageing alone, from the transactions that the run's generators
      inserted: every live slot, every copy in flight and every committed transaction is one of
      those, with nothing changed but a reward raised by waiting; and a live slot's reward is
      the generated one plus one for every 50 rounds of its age. */
  lemma AgeingInvariant(sys: System, steps: seq<Step>)
    requires ValidConfig(sys.config) && Runs(sys, Init(sys), steps)
    ensures var s := After(sys, Init(sys), steps);
            && ExplainedBy(s, s.born)
            && forall name :: name in s.born ==> Name(s.born[name]) == name && WasInserted(sys, steps, s.born[name])
  {
    hide Custody, Growth, ExplainedBy, Runs, After, Init, Name, WasInserted;
    var s := After(sys, Init(sys), steps);
    assert Reachable(sys, s);
    RecordsAreTrue(sys, steps);
    ExplainedAlways(sys, s);
    var w: Books :| Custody(sys, s, w) && Growth(s, w);
    BooksExplain(sys, s, w);
  }

  lemma BooksExplain(sys: System, s: State, w: Books)
    requires Custody(sys, s, w) && Growth(s, w)
    ensures ExplainedBy(s, s.born)
  {
    LiveSlotsExplained(sys, s, w);
    hide Custody, Growth, ComesFrom, InFlight, Name, Grown;
    forall ts, i | InFlight(s, ts) && 0 <= i < |ts| ensures FlightOk(s, s.born, ts, i) {
      FlightExplained(sys, s, w, ts, i);
    }
    forall b, i | 0 <= b < |s.ledger| && 0 <= i < |s.ledger[b].transactions|
      ensures ComesFrom(s.born, s.ledger[b].transactions[i])
    {
      LedgerExplained(s, w, b, i);
    }
  }

  lemma LiveSlotsExplained(sys: System, s: State, w: Books)
    requires Custody(sys, s, w) && Growth(s, w)
    ensures forall j :: 0 <= j < |s.pool| && !s.pool[j].empty ==>
      && ComesFrom(s.born, s.pool[j].tx) && s.pool[j].age >= 0
      && s.pool[j].tx == Grown(s.born[Name(s.pool[j].tx)], s.pool[j].age)
  {
    hide Name, Grown, InFlight, UniqueNames;
    assert SlotsOk(s.pool, w.owner);
    forall j | 0 <= j < |s.pool| && !s.pool[j].empty
      ensures ComesFrom(s.born, s.pool[j].tx) && s.pool[j].age >= 0
      ensures s.pool[j].tx == Grown(s.born[Name(s.pool[j].tx)], s.pool[j].age)
    {
      assert SlotGrown(s.born, w.owner, s.pool[j]);
      var age: nat := s.pool[j].age;
      assert s.pool[j].tx == Grown(s.born[Name(s.pool[j].tx)], age);
    }
  }

  lemma FlightExplained(sys: System, s: State, w: Books, ts: seq<Transaction>, i: nat)
    requires Custody(sys, s, w) && Growth(s, w) && InFlight(s, ts) && i < |ts|
    ensures FlightOk(s, s.born, ts, i)
  {
    var who := InFlightOwned(sys, s, w, ts);
    hide Name, Grown, InFlight, Custody, DistinctNames;
    assert Faithful(s.pool, s.born, ts);
    assert IsGrown(s.born, ts[i]);
    forall j | 0 <= j < |s.pool| && Name(s.pool[j].tx) == Name(ts[i])
      ensures s.pool[j].tx == ts[i] && s.pool[j].age >= 0
      ensures s.pool[j].tx == Grown(s.born[Name(ts[i])], s.pool[j].age)
    {
      assert SlotGrown(s.born, w.owner, s.pool[j]);
    }
  }

  lemma LedgerExplained(s: State, w: Books, b: nat, i: nat)
    requires Growth(s, w) && b < |s.ledger| && i < |s.ledger[b].transactions|
    ensures ComesFrom(s.born, s.ledger[b].transactions[i])
  {
    hide Name, Grown, InFlight, SlotsGrown;
    assert Original(s.born, s.ledger[b].transactions);
    assert IsGrown(s.born, s.ledger[b].transactions[i]);
  }
}
