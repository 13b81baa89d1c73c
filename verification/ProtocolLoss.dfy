/** What becomes of transactions that leave circulation: committed ones never come back, and some are lost
    although they were never committed: all of a block refused for its previous hash, those that a failed
    pool check does not reach, and those whose slot was reused before a full ledger or a miner gives them
    back. */
module ProtocolLoss {
  import opened Bytes
  import opened Data
  import opened TxIds
  import opened Pow
  import opened Chain
  import opened PoolSpec
  import opened Protocol
  import opened ProtocolCustody
  import opened ProtocolAgeing
  import opened ProtocolSafety

  ghost predicate IsLive(pool: seq<Slot>, name: Bytes) {
    exists j :: 0 <= j < |pool| && !pool[j].empty && Name(pool[j].tx) == name
  }

  /** An identifier some generator has used that no live slot and nobody in flight has. */
  ghost predicate Gone(s: State, name: Bytes) {
    && name != [] && Issued(s.counters, name)
    && !IsLive(s.pool, name)
    && forall ts :: InFlight(s, ts) ==> name !in Names(ts)
  }

  ghost predicate Committed(ledger: seq<Block>, name: Bytes) {
    exists b :: 0 <= b < |ledger| && name in Names(ledger[b].transactions)
  }

  // ----- gone is for ever -----------------------------------------------------------------------------

  lemma ReturnedWasNamed(pool: seq<Slot>, ts: seq<Transaction>, name: Bytes)
    requires !IsLive(pool, name) && name !in Names(ts)
    ensures !IsLive(ReturnFirst(pool, ts), name) && !IsLive(ReturnAll(pool, ts), name)
    ensures !IsLive(PoolSpec.Remove(pool, ts), name)
  {
    hide Name, Names, ReturnFirst, ReturnAll, PoolSpec.Remove;
    ReturnFirstTouches(pool, ts);
    RemoveTouches(pool, ts);
    forall j | 0 <= j < |pool|
      ensures ReturnFirst(pool, ts)[j].tx == pool[j].tx == ReturnAll(pool, ts)[j].tx == PoolSpec.Remove(pool, ts)[j].tx
      ensures Name(pool[j].tx) == name ==>
        ReturnFirst(pool, ts)[j].empty && ReturnAll(pool, ts)[j].empty && PoolSpec.Remove(pool, ts)[j].empty
    {
      ReturnAt(pool, ts, j);
    }
  }

  lemma PrefixNames(ts: seq<Transaction>, n: nat)
    requires n <= |ts|
    ensures Names(ts[..n]) <= Names(ts)
  {
    hide Name;
  }

  lemma SelectedWasLive(pool: seq<Slot>, k: nat, name: Bytes)
    requires !IsLive(pool, name)
    ensures !IsLive(Reserve(pool, k).0, name)
    ensures Reserve(pool, k).1.Some? ==> name !in Names(Reserve(pool, k).1.value)
  {
    hide Name;
    var p := Picked(pool, k, |pool|);
    var ts := Copies(pool, p);
    forall t | t in ts ensures Name(t) != name {
      var i :| 0 <= i < |ts| && ts[i] == t;
      assert !pool[p[i]].empty;
    }
    var m := Mark(pool, p);
    assert forall j :: 0 <= j < |pool| ==> m[j].tx == pool[j].tx && (!m[j].empty ==> !pool[j].empty);
  }

  lemma AgedWasLive(pool: seq<Slot>, name: Bytes)
    requires !IsLive(pool, name)
    ensures !IsLive(AgeAll(pool), name)
  {
    AgeKeepsNames(pool);
    hide Name, AgeAll;
  }

  lemma InsertedIsNew(s: State, pid: nat, d: Draw, name: Bytes)
    requires Fresh(s, pid) && Issued(s.counters, name) && !IsLive(s.pool, name)
    ensures !IsLive(Insert(s.pool, NewTx(pid, Counter(s, pid), d)).0, name)
    ensures Issued(s.counters[pid := Counter(s, pid) + 1], name)
  {
    hide Name, IdText, Issued, IsLiveDuplicate, NewTx;
    var c := Counter(s, pid);
    var tx := NewTx(pid, c, d);
    assert Name(tx) == IdText(pid, c);
    IssuedGrows(s.counters, pid, c + 1, name);
  }

  lemma GoneFromPool(sys: System, s: State, step: Step, name: Bytes)
    requires Gone(s, name) && Enabled(sys, s, step)
    ensures !IsLive(Do(sys, s, step).pool, name) && Issued(Do(sys, s, step).counters, name)
  {
    hide Names, Issued, Accepts, Finds, Fails, Insert, Reserve, AgeAll, ReturnAll, ReturnFirst, FoundPrefix,
         PoolSpec.Remove, Links, Tip, PercentFull, Revived, NewTx, RewardSum, NewBlock, IsLive;
    match step
    case Generate(pid, d) => InsertedIsNew(s, pid, d, name);
    case Select(i) => SelectedWasLive(s.pool, sys.config.perBlock, name);
    case Age(_) => AgedWasLive(s.pool, name);
    case GiveBack(i) =>
      assert InFlight(s, Held(s.miners[i]));
      ReturnedWasNamed(s.pool, s.miners[i].transactions, name);
    case CheckPool(v) =>
      var ts := s.validators[v].m.block.transactions;
      assert Carries(s.validators[v]) && InFlight(s, ts);
      PrefixNames(ts, FoundPrefix(s.pool, ts));
      ReturnedWasNamed(s.pool, ts[..FoundPrefix(s.pool, ts)], name);
    case GiveBackRefused(v) =>
      var ts := s.validators[v].m.block.transactions;
      assert Carries(s.validators[v]) && InFlight(s, ts);
      ReturnedWasNamed(s.pool, ts, name);
    case Remove(v) => RemovedIsFree(s.pool, s.validators[v].m.block.transactions, name);
    case _ =>
  }

  lemma RemovedIsFree(pool: seq<Slot>, ts: seq<Transaction>, name: Bytes)
    requires !IsLive(pool, name)
    ensures !IsLive(PoolSpec.Remove(pool, ts), name)
  {
    hide Name, PoolSpec.Remove;
    RemoveTouches(pool, ts);
  }

  lemma GoneStep(sys: System, s: State, step: Step, name: Bytes)
    requires Gone(s, name) && Enabled(sys, s, step)
    ensures Gone(Do(sys, s, step), name)
    ensures Committed(Do(sys, s, step).ledger, name) <==> Committed(s.ledger, name)
  {
    var t := Do(sys, s, step);
    GoneFromPool(sys, s, step, name);
    AppendOnlyLedger(sys, s, step);
    if step.Append? {
      AppendedInFlight(sys, s, step);
    }
    hide Enabled, Possible, Do, Name, Names, Issued, InFlight, IsLive, Reserve;
    forall ts | InFlight(t, ts) ensures name !in Names(ts) {
      InFlightStep(sys, s, step, ts);
      if !InFlight(s, ts) {
        SelectedWasLive(s.pool, sys.config.perBlock, name);
      }
    }
    if Committed(s.ledger, name) {
      var b :| 0 <= b < |s.ledger| && name in Names(s.ledger[b].transactions);
      assert t.ledger[b] == s.ledger[b];
    }
  }

  /** What is gone stays gone in every continuation, and its being committed or not is settled. */
  lemma {:induction false} GoneForever(sys: System, s: State, steps: seq<Step>, name: Bytes)
    requires Gone(s, name) && Runs(sys, s, steps)
    ensures Gone(After(sys, s, steps), name)
    ensures Committed(After(sys, s, steps).ledger, name) <==> Committed(s.ledger, name)
    decreases |steps|
  {
    hide Gone, Enabled, Possible, Do, Committed;
    if steps != [] {
      GoneStep(sys, s, steps[0], name);
      GoneForever(sys, Do(sys, s, steps[0]), steps[1..], name);
    }
  }

  // ----- what is gone ------------------------------------------------------------------------------------

  /** A committed transaction is gone: it never becomes live or reserved again. */
  lemma CommittedIsGone(sys: System, s: State, name: Bytes)
    requires Reachable(sys, s) && Committed(s.ledger, name)
    ensures Gone(s, name)
  {
    hide Name, Growth, Reachable, Issued;
    ExplainedAlways(sys, s);
    var w: Books :| Custody(sys, s, w) && Growth(s, w);
    var b :| 0 <= b < |s.ledger| && name in Names(s.ledger[b].transactions);
    LedgerOwned(sys, s, w, b);
    OwnedNames(w.owner, sys.config.perBlock, s.ledger[b].transactions, InLedger(b));
    assert w.owner[name] == InLedger(b);
    assert SlotsOk(s.pool, w.owner) && name != [];
    hide Custody, InFlight, UniqueNames;
    forall ts | InFlight(s, ts) ensures name !in Names(ts) {
      var who := InFlightOwned(sys, s, w, ts);
      OwnedNames(w.owner, sys.config.perBlock, ts, who);
    }
  }

  /** In every continuation of every run a committed transaction stays committed and out of
      circulation. */
  lemma CommittedForever(sys: System, s: State, steps: seq<Step>, name: Bytes)
    requires Reachable(sys, s) && Committed(s.ledger, name) && Runs(sys, s, steps)
    ensures Committed(After(sys, s, steps).ledger, name) && Gone(After(sys, s, steps), name)
  {
    hide Gone, Committed, Reachable, Runs, After;
    CommittedIsGone(sys, s, name);
    GoneForever(sys, s, steps, name);
  }

  /** The validator that refuses a block for its previous hash lets go of transactions that
      nobody else holds and that no slot offers: they are gone, and no continuation commits them.
      (DEIChain's README says they are returned to the pool.) */
  lemma LinkRefusalLoses(sys: System, s: State, v: nat, i: nat, steps: seq<Step>)
    requires Reachable(sys, s) && Enabled(sys, s, CheckLink(v))
    requires !Links(s.validators[v].m.block, Tip(Hasher(sys.h), s.ledger))
    requires i < |s.validators[v].m.block.transactions|
    requires Runs(sys, Do(sys, s, CheckLink(v)), steps)
    ensures var name := Name(s.validators[v].m.block.transactions[i]);
            var t := After(sys, Do(sys, s, CheckLink(v)), steps);
            Gone(t, name) && !Committed(t.ledger, name)
  {
    hide Do, Enabled, Possible, Links, Reachable, Name, Growth, Custody, Gone, Committed, Runs, After, IsLive;
    RefusalFrame(sys, s, v);
    var name := Name(s.validators[v].m.block.transactions[i]);
    var t := Do(sys, s, CheckLink(v));
    ExplainedAlways(sys, s);
    var w: Books :| Custody(sys, s, w) && Growth(s, w);
    OthersThanValidator(sys, s, w, v, t, t.validators[v]);
    NobodyElse(sys, s, w, s.validators[v].m.block.transactions, WithValidator(v), i, t);
    GoneForever(sys, t, steps, name);
  }

  lemma RefusalFrame(sys: System, s: State, v: nat)
    requires Enabled(sys, s, CheckLink(v))
    requires !Links(s.validators[v].m.block, Tip(Hasher(sys.h), s.ledger))
    ensures ValidatorAt(s, v) && Carries(s.validators[v])
    ensures var t := Do(sys, s, CheckLink(v));
            && t.pool == s.pool && t.counters == s.counters && t.ledger == s.ledger
            && t.pipe == s.pipe && t.miners == s.miners
            && t.validators == s.validators[v := Reporting(s.validators[v].m, false)]
  {
    hide Accepts, Links, Tip, Hasher;
  }

  /** Somebody other than `who` holds it. */
  ghost predicate HeldByOther(o: map<Bytes, Owner>, k: nat, ts: seq<Transaction>, who: Owner) {
    exists other :: other != who && Owned(o, k, ts, other)
  }

  /** A holder lets go of its transactions: those no slot makes live are gone. */
  lemma NobodyElse(sys: System, s: State, w: Books, ts: seq<Transaction>, who: Owner, i: nat, t: State)
    requires Custody(sys, s, w) && Owned(w.owner, sys.config.perBlock, ts, who) && !who.InPool? && !who.InLedger?
    requires t.counters == s.counters && t.ledger == s.ledger && i < |ts|
    requires forall us :: InFlight(t, us) ==> HeldByOther(w.owner, sys.config.perBlock, us, who)
    ensures var name := Name(ts[i]);
            && (Gone(t, name) <==> !IsLive(t.pool, name))
            && !IsLive(s.pool, name) && !Committed(t.ledger, name)
  {
    var k := sys.config.perBlock;
    var name := Name(ts[i]);
    HeldFacts(sys, s, w, ts, who, i);
    hide Name, Issued, SlotsOk, UniqueNames, IsLive, Custody, InFlight;
    forall us | InFlight(t, us) ensures name !in Names(us) {
      assert HeldByOther(w.owner, k, us, who);
      var other :| other != who && Owned(w.owner, k, us, other);
      OwnedNames(w.owner, k, us, other);
    }
    forall b | 0 <= b < |t.ledger| ensures name !in Names(t.ledger[b].transactions) {
      LedgerOwned(sys, s, w, b);
      OwnedNames(w.owner, k, s.ledger[b].transactions, InLedger(b));
    }
  }

  lemma HeldFacts(sys: System, s: State, w: Books, ts: seq<Transaction>, who: Owner, i: nat)
    requires Custody(sys, s, w) && Owned(w.owner, sys.config.perBlock, ts, who) && !who.InPool? && i < |ts|
    ensures var name := Name(ts[i]);
            && name != [] && Issued(s.counters, name) && name in w.owner && w.owner[name] == who
            && !IsLive(s.pool, name)
  {
    hide Name, Issued, UniqueNames, MinersOk, PipeOk, ValidatorsOk, LedgerOk, AppendedOk, DistinctNames, SlotsOk, IsLive;
    LiveIsInPool(s.pool, w.owner, Name(ts[i]));
  }

  lemma LiveIsInPool(pool: seq<Slot>, o: map<Bytes, Owner>, name: Bytes)
    requires SlotsOk(pool, o)
    ensures IsLive(pool, name) ==> name in o && o[name] == InPool
  {
    hide Name;
  }

  /** After a validator has let go of its block, whatever is in flight was held by others. */
  lemma OthersThanValidator(sys: System, s: State, w: Books, v: nat, t: State, x: Validator)
    requires Custody(sys, s, w) && ValidatorAt(s, v) && Carries(s.validators[v])
    requires t.pipe == s.pipe && t.miners == s.miners && t.validators == s.validators[v := x] && !Carries(x)
    ensures Owned(w.owner, sys.config.perBlock, s.validators[v].m.block.transactions, WithValidator(v))
    ensures forall us :: InFlight(t, us) ==> HeldByOther(w.owner, sys.config.perBlock, us, WithValidator(v))
  {
    hide Owned, SlotsOk, Issued, AppendedOk, Holds, Held;
    var o, k, who := w.owner, sys.config.perBlock, WithValidator(v);
    forall us | InFlight(t, us) ensures HeldByOther(o, k, us, who) {
      if i :| 0 <= i < |t.miners| && Holds(t.miners[i]) && Held(t.miners[i]) == us {
        assert Owned(o, k, us, WithMiner(i));
      } else if n :| 0 <= n < |t.pipe| && t.pipe[n].block.transactions == us {
        assert Owned(o, k, us, InPipe(w.taken + n));
      } else {
        var u :| 0 <= u < |t.validators| && Carries(t.validators[u]) && t.validators[u].m.block.transactions == us;
        assert u != v && t.validators[u] == s.validators[u];
        assert Owned(o, k, us, WithValidator(u));
      }
    }
  }

  /** The same for a miner. */
  lemma OthersThanMiner(sys: System, s: State, w: Books, i: nat, t: State)
    requires Custody(sys, s, w) && MinerAt(s, i) && Holds(s.miners[i])
    requires t.pipe == s.pipe && t.validators == s.validators && t.miners == s.miners[i := Waiting]
    ensures Owned(w.owner, sys.config.perBlock, Held(s.miners[i]), WithMiner(i))
    ensures forall us :: InFlight(t, us) ==> HeldByOther(w.owner, sys.config.perBlock, us, WithMiner(i))
  {
    hide Owned, SlotsOk, Issued, AppendedOk, Held;
    var o, k, who := w.owner, sys.config.perBlock, WithMiner(i);
    forall us | InFlight(t, us) ensures HeldByOther(o, k, us, who) {
      if j :| 0 <= j < |t.miners| && Holds(t.miners[j]) && Held(t.miners[j]) == us {
        assert j != i && t.miners[j] == s.miners[j];
        assert Owned(o, k, us, WithMiner(j));
      } else if n :| 0 <= n < |t.pipe| && t.pipe[n].block.transactions == us {
        assert Owned(o, k, us, InPipe(w.taken + n));
      } else {
        var u :| 0 <= u < |t.validators| && Carries(t.validators[u]) && t.validators[u].m.block.transactions == us;
        assert Owned(o, k, us, WithValidator(u));
      }
    }
  }

  /** A block refused by the pool check gives back exactly its leading transactions that still
      have a slot; every later one is gone. */
  lemma PoolRefusalReturnsIff(sys: System, s: State, v: nat, i: nat)
    requires Reachable(sys, s) && Enabled(sys, s, CheckPool(v))
    requires !Check(s.pool, s.validators[v].m.block.transactions).1
    requires i < |s.validators[v].m.block.transactions|
    ensures var ts, t := s.validators[v].m.block.transactions, Do(sys, s, CheckPool(v));
            && (IsLive(t.pool, Name(ts[i])) <==> i < FoundPrefix(s.pool, ts))
            && (Gone(t, Name(ts[i])) <==> i >= FoundPrefix(s.pool, ts))
            && !Committed(t.ledger, Name(ts[i]))
  {
    hide Name, Reachable, Do, Enabled, Possible, InFlight, FoundPrefix, ReturnFirst, Custody, Growth, IsLive, Gone, Committed;
    PoolRefusalFrame(sys, s, v);
    var ts, t := s.validators[v].m.block.transactions, Do(sys, s, CheckPool(v));
    InFlightIsReserved(sys, s, ts);
    PoolIsSound(sys, s);
    ReturnedIff(s.pool, ts, i);
    ExplainedAlways(sys, s);
    var w: Books :| Custody(sys, s, w) && Growth(s, w);
    OthersThanValidator(sys, s, w, v, t, t.validators[v]);
    NobodyElse(sys, s, w, s.validators[v].m.block.transactions, WithValidator(v), i, t);
  }

  lemma PoolRefusalFrame(sys: System, s: State, v: nat)
    requires Enabled(sys, s, CheckPool(v))
    requires !Check(s.pool, s.validators[v].m.block.transactions).1
    ensures ValidatorAt(s, v) && Carries(s.validators[v])
    ensures var ts, t := s.validators[v].m.block.transactions, Do(sys, s, CheckPool(v));
            && t.counters == s.counters && t.ledger == s.ledger && t.pipe == s.pipe && t.miners == s.miners
            && t.validators == s.validators[v := Reporting(s.validators[v].m, false)]
            && t.pool == ReturnFirst(s.pool, ts[..FoundPrefix(s.pool, ts)])
            && InFlight(s, ts)
  {
    hide Name, ReturnFirst, FoundPrefix, Revived;
    assert Carries(s.validators[v]);
  }

  lemma ReturnedIff(pool: seq<Slot>, ts: seq<Transaction>, i: nat)
    requires UniqueNames(pool) && AllNamed(ts) && DistinctNames(ts) && i < |ts|
    requires forall j :: 0 <= j < |pool| && Name(pool[j].tx) == Name(ts[i]) ==> pool[j].empty
    ensures IsLive(ReturnFirst(pool, ts[..FoundPrefix(pool, ts)]), Name(ts[i])) <==> i < FoundPrefix(pool, ts)
  {
    hide Name, FoundPrefix, ReturnFirst, ReturnAll, UniqueNames, DistinctNames;
    var p := FoundPrefix(pool, ts);
    var name := Name(ts[i]);
    FoundPrefixMeaning(pool, ts);
    PrefixNamed(ts, p);
    ReturnFirstIsReturnAll(pool, ts[..p]);
    PrefixMembership(ts, p, i);
    hide AllNamed, Names;
    if i < p {
      var j :| 0 <= j < |pool| && Name(pool[j].tx) == name;
      ReturnAt(pool, ts[..p], j);
      assert !ReturnAll(pool, ts[..p])[j].empty;
    } else {
      forall j | 0 <= j < |pool| && Name(ReturnAll(pool, ts[..p])[j].tx) == name
        ensures ReturnAll(pool, ts[..p])[j].empty
      {
        ReturnAt(pool, ts[..p], j);
      }
    }
  }

  /** A valid block that finds the ledger full gives back every transaction that still has a slot; the
      others, whose slots were reused while they were reserved, are gone. */
  lemma FullLedgerReturnsIff(sys: System, s: State, v: nat, i: nat)
    requires Reachable(sys, s) && Enabled(sys, s, GiveBackRefused(v))
    requires i < |s.validators[v].m.block.transactions|
    ensures var name, t := Name(s.validators[v].m.block.transactions[i]), Do(sys, s, GiveBackRefused(v));
            && (IsLive(t.pool, name) <==> HasSlot(s.pool, name))
            && (Gone(t, name) <==> !HasSlot(s.pool, name))
            && !Committed(t.ledger, name)
  {
    hide Name, Reachable, Do, Enabled, Possible, InFlight, ReturnFirst, Custody, Growth, IsLive, Gone, Committed;
    FullLedgerFrame(sys, s, v);
    var ts, t := s.validators[v].m.block.transactions, Do(sys, s, GiveBackRefused(v));
    InFlightIsReserved(sys, s, ts);
    PoolIsSound(sys, s);
    AllReturnedIff(s.pool, ts, i);
    ExplainedAlways(sys, s);
    var w: Books :| Custody(sys, s, w) && Growth(s, w);
    OthersThanValidator(sys, s, w, v, t, t.validators[v]);
    NobodyElse(sys, s, w, s.validators[v].m.block.transactions, WithValidator(v), i, t);
  }

  /** A miner that gives up, or cannot send, gets back exactly the transactions that some slot still
      shows; those whose slot an insert has reused since they were selected are gone. */
  lemma MinerGiveBackReturnsIff(sys: System, s: State, i: nat, n: nat)
    requires Reachable(sys, s) && Enabled(sys, s, GiveBack(i))
    requires n < |s.miners[i].transactions|
    ensures var name, t := Name(s.miners[i].transactions[n]), Do(sys, s, GiveBack(i));
            && (IsLive(t.pool, name) <==> HasSlot(s.pool, name))
            && (Gone(t, name) <==> !HasSlot(s.pool, name))
            && !Committed(t.ledger, name)
  {
    hide Name, Reachable, Do, Enabled, Possible, InFlight, ReturnAll, Custody, Growth, IsLive, Gone, Committed;
    GiveBackFrame(sys, s, i);
    var ts, t := s.miners[i].transactions, Do(sys, s, GiveBack(i));
    MatchingReturnedIff(s.pool, ts, n);
    ExplainedAlways(sys, s);
    var w: Books :| Custody(sys, s, w) && Growth(s, w);
    OthersThanMiner(sys, s, w, i, t);
    NobodyElse(sys, s, w, ts, WithMiner(i), n, t);
  }

  lemma GiveBackFrame(sys: System, s: State, i: nat)
    requires Enabled(sys, s, GiveBack(i))
    ensures MinerAt(s, i) && s.miners[i].GivingUp?
    ensures var ts, t := s.miners[i].transactions, Do(sys, s, GiveBack(i));
            && t.counters == s.counters && t.ledger == s.ledger && t.pipe == s.pipe && t.validators == s.validators
            && t.miners == s.miners[i := Waiting] && t.pool == ReturnAll(s.pool, ts) && InFlight(s, ts)
  {
    hide Name, ReturnAll, Revived;
    assert Holds(s.miners[i]) && Held(s.miners[i]) == s.miners[i].transactions;
  }

  lemma FullLedgerFrame(sys: System, s: State, v: nat)
    requires Enabled(sys, s, GiveBackRefused(v))
    ensures ValidatorAt(s, v) && Carries(s.validators[v])
    ensures var ts, t := s.validators[v].m.block.transactions, Do(sys, s, GiveBackRefused(v));
            && t.counters == s.counters && t.ledger == s.ledger && t.pipe == s.pipe && t.miners == s.miners
            && t.validators == s.validators[v := Reporting(s.validators[v].m, true)]
            && t.pool == ReturnFirst(s.pool, ts) && InFlight(s, ts)
  {
    hide Name, ReturnFirst, Revived, PercentFull;
    assert Carries(s.validators[v]);
  }

  lemma AllReturnedIff(pool: seq<Slot>, ts: seq<Transaction>, i: nat)
    requires UniqueNames(pool) && AllNamed(ts) && i < |ts|
    ensures IsLive(ReturnFirst(pool, ts), Name(ts[i])) <==> HasSlot(pool, Name(ts[i]))
  {
    hide Name, ReturnFirst, ReturnAll, UniqueNames, AllNamed, IsLive, HasSlot;
    ReturnFirstIsReturnAll(pool, ts);
    MatchingReturnedIff(pool, ts, i);
  }

  lemma MatchingReturnedIff(pool: seq<Slot>, ts: seq<Transaction>, i: nat)
    requires i < |ts|
    ensures IsLive(ReturnAll(pool, ts), Name(ts[i])) <==> HasSlot(pool, Name(ts[i]))
  {
    hide Name, ReturnAll;
    assert ts[i] in ts;
    forall j | 0 <= j < |pool|
      ensures ReturnAll(pool, ts)[j].tx == pool[j].tx
      ensures Name(pool[j].tx) == Name(ts[i]) ==> !ReturnAll(pool, ts)[j].empty
    {
      ReturnAt(pool, ts, j);
    }
  }

  lemma PrefixNamed(ts: seq<Transaction>, p: nat)
    requires AllNamed(ts) && p <= |ts|
    ensures AllNamed(ts[..p])
  {
    hide Name;
  }

  lemma PrefixMembership(ts: seq<Transaction>, p: nat, i: nat)
    requires DistinctNames(ts) && p <= |ts| && i < |ts|
    ensures Name(ts[i]) in Names(ts[..p]) <==> i < p
  {
    hide Name;
    assert i < p ==> ts[..p][i] == ts[i];
    assert p <= i ==> forall j :: 0 <= j < p ==> Name(ts[j]) != Name(ts[i]);
  }
}
