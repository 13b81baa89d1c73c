/** What ageing does to rewards, and that every copy of a transaction is the slot's. */
module ProtocolAgeing {
  import opened Bytes
  import opened Data
  import opened TxIds
  import opened Pow
  import opened Chain
  import opened PoolSpec
  import opened Protocol
  import opened ProtocolCustody

  /** A transaction that has waited in the pool for `age` rounds since it was generated. */
  function Grown(t: Transaction, age: nat): Transaction {
    t.(reward := t.reward + age / AGE_STEP)
  }

  /** The transactions as they were inserted, by name: the state's history. */
  type Records = map<Bytes, Transaction>

  ghost predicate IsGrown(born: Records, t: Transaction) {
    Name(t) in born && exists age: nat :: t == Grown(born[Name(t)], age)
  }

  /** A slot whose transaction is not yet in the ledger shows the generated transaction, with one
      more reward for every 50 rounds of its age. */
  ghost predicate SlotGrown(born: Records, o: map<Bytes, Owner>, s: Slot) {
    Name(s.tx) != [] ==>
      && Name(s.tx) in born && Name(s.tx) in o
      && (!o[Name(s.tx)].InLedger? ==> s.age >= 0 && s.tx == Grown(born[Name(s.tx)], s.age))
  }

  ghost predicate SlotsGrown(pool: seq<Slot>, born: Records, o: map<Bytes, Owner>) {
    forall j :: 0 <= j < |pool| ==> SlotGrown(born, o, pool[j])
  }

  /** Each transaction is a generated one, aged, and any slot that still holds it holds the very
      same data. */
  ghost predicate Faithful(pool: seq<Slot>, born: Records, ts: seq<Transaction>) {
    forall i :: 0 <= i < |ts| ==>
      IsGrown(born, ts[i]) && forall j :: 0 <= j < |pool| && Name(pool[j].tx) == Name(ts[i]) ==> pool[j].tx == ts[i]
  }

  ghost predicate Original(born: Records, ts: seq<Transaction>) {
    forall i :: 0 <= i < |ts| ==> IsGrown(born, ts[i])
  }

  ghost predicate InFlight(s: State, ts: seq<Transaction>) {
    || (exists i :: 0 <= i < |s.miners| && Holds(s.miners[i]) && Held(s.miners[i]) == ts)
    || (exists n :: 0 <= n < |s.pipe| && s.pipe[n].block.transactions == ts)
    || (exists v :: 0 <= v < |s.validators| && Carries(s.validators[v]) && s.validators[v].m.block.transactions == ts)
  }

  ghost predicate BornOk(born: Records) {
    forall n :: n in born ==> Name(born[n]) == n && 1 <= born[n].reward <= 3
  }

  ghost predicate Growth(s: State, w: Books) {
    && BornOk(s.born)
    && SlotsGrown(s.pool, s.born, w.owner)
    && (forall ts :: InFlight(s, ts) ==> Faithful(s.pool, s.born, ts))
    && (forall b :: 0 <= b < |s.ledger| ==> Original(s.born, s.ledger[b].transactions))
  }

  // ----- what is in flight ---------------------------------------------------------------------------

  ghost predicate JustSelected(sys: System, s: State, step: Step, ts: seq<Transaction>) {
    step.Select? && Reserve(s.pool, sys.config.perBlock).1 == Some(ts)
  }

  lemma MinerInFlight(sys: System, s: State, step: Step, i: nat)
    requires Possible(sys, s, step)
    requires MinerAt(Do(sys, s, step), i) && Holds(Do(sys, s, step).miners[i])
    ensures var ts := Held(Do(sys, s, step).miners[i]); InFlight(s, ts) || JustSelected(sys, s, step, ts)
  {
    hide Name, Finds, Fails, Accepts, Insert, Reserve, Check, AgeAll, ReturnAll, ReturnFirst, PoolSpec.Remove,
         Links, Tip, PercentFull, Revived, NewTx, RewardSum, NewBlock;
    DraftHolds(s, step);
    var t := Do(sys, s, step);
    assert |t.miners| == |s.miners|;
    if Holds(s.miners[i]) && Held(s.miners[i]) == Held(t.miners[i]) {
    } else {
      assert step.Select? && step.i == i;
    }
  }

  lemma PipeInFlight(sys: System, s: State, step: Step, n: nat)
    requires Possible(sys, s, step)
    requires n < |Do(sys, s, step).pipe|
    ensures InFlight(s, Do(sys, s, step).pipe[n].block.transactions)
  {
    hide Name, Finds, Fails, Accepts, Insert, Reserve, Check, AgeAll, ReturnAll, ReturnFirst, PoolSpec.Remove,
         Links, Tip, PercentFull, Revived, NewTx, RewardSum, NewBlock;
    var t := Do(sys, s, step);
    if step.Send? && n == |s.pipe| {
      assert Held(s.miners[step.i]) == t.pipe[n].block.transactions;
    } else if step.Receive? {
      assert t.pipe[n] == s.pipe[n + 1];
    } else {
      assert t.pipe[n] == s.pipe[n];
    }
  }

  predicate ByValidator(step: Step) {
    || step.Receive? || step.CheckLink? || step.CheckPool? || step.CheckCapacity? || step.Append? || step.Remove?
    || step.GiveBackRefused? || step.Report? || step.Fork? || step.Exit?
  }

  lemma ValidatorsKept(sys: System, s: State, step: Step)
    requires Possible(sys, s, step) && !ByValidator(step)
    ensures Do(sys, s, step).validators == s.validators
  {
    hide Name, Finds, Fails, Accepts, Insert, Reserve, AgeAll, ReturnAll, Tip, Hasher, PercentFull, Revived, NewTx, NewBlock;
  }

  lemma CarriedIsInFlight(s: State, v: nat)
    requires ValidatorAt(s, v) && Carries(s.validators[v])
    ensures InFlight(s, s.validators[v].m.block.transactions)
  {
  }

  lemma QueuedIsInFlight(s: State, n: nat)
    requires n < |s.pipe|
    ensures InFlight(s, s.pipe[n].block.transactions)
  {
  }

  lemma ValidatorMovesInFlight(sys: System, s: State, step: Step, v: nat)
    requires Possible(sys, s, step) && ByValidator(step)
    requires ValidatorAt(Do(sys, s, step), v) && Carries(Do(sys, s, step).validators[v])
    ensures InFlight(s, Do(sys, s, step).validators[v].m.block.transactions)
  {
    hide InFlight, Name, Accepts, Check, ReturnFirst, PoolSpec.Remove, Links, Tip, Hasher, PercentFull, Revived, RewardSum;
    var t := Do(sys, s, step);
    if step.Receive? && v == step.v {
      QueuedIsInFlight(s, 0);
    } else {
      assert v < |s.validators| && Carries(s.validators[v]) && s.validators[v].m == t.validators[v].m;
      CarriedIsInFlight(s, v);
    }
  }

  lemma ValidatorInFlight(sys: System, s: State, step: Step, v: nat)
    requires Possible(sys, s, step)
    requires ValidatorAt(Do(sys, s, step), v) && Carries(Do(sys, s, step).validators[v])
    ensures InFlight(s, Do(sys, s, step).validators[v].m.block.transactions)
  {
    hide Enabled, Possible, Do, InFlight;
    if ByValidator(step) {
      ValidatorMovesInFlight(sys, s, step, v);
    } else {
      ValidatorsKept(sys, s, step);
      CarriedIsInFlight(s, v);
    }
  }

  /** The only new block in flight is one just selected. */
  lemma InFlightStep(sys: System, s: State, step: Step, ts: seq<Transaction>)
    requires Possible(sys, s, step) && InFlight(Do(sys, s, step), ts)
    ensures InFlight(s, ts) || JustSelected(sys, s, step, ts)
  {
    var t := Do(sys, s, step);
    hide Enabled, Possible, Do, Holds, Held;
    if i :| 0 <= i < |t.miners| && Holds(t.miners[i]) && Held(t.miners[i]) == ts {
      MinerInFlight(sys, s, step, i);
    } else if n :| 0 <= n < |t.pipe| && t.pipe[n].block.transactions == ts {
      PipeInFlight(sys, s, step, n);
    } else {
      var v :| 0 <= v < |t.validators| && Carries(t.validators[v]) && t.validators[v].m.block.transactions == ts;
      ValidatorInFlight(sys, s, step, v);
    }
  }

  /** A block in flight is owned by somebody who is neither the pool nor the ledger. */
  lemma InFlightOwned(sys: System, s: State, w: Books, ts: seq<Transaction>) returns (who: Owner)
    requires Custody(sys, s, w) && InFlight(s, ts)
    ensures Owned(w.owner, sys.config.perBlock, ts, who) && !who.InPool? && !who.InLedger?
  {
    hide Owned, SlotsOk, Issued, AppendedOk, Holds, Held;
    if i :| 0 <= i < |s.miners| && Holds(s.miners[i]) && Held(s.miners[i]) == ts {
      who := WithMiner(i);
    } else if n :| 0 <= n < |s.pipe| && s.pipe[n].block.transactions == ts {
      who := InPipe(w.taken + n);
    } else {
      var v :| 0 <= v < |s.validators| && Carries(s.validators[v]) && s.validators[v].m.block.transactions == ts;
      who := WithValidator(v);
    }
  }

  // ----- frames ----------------------------------------------------------------------------------------

  /** Nothing leaves the ledger's ownership. */
  ghost predicate BooksGrow(w: Books, x: Books) {
    && x.owner.Keys == w.owner.Keys
    && forall n :: n in w.owner && w.owner[n].InLedger? ==> x.owner[n].InLedger?
  }

  /** Slots keep their transactions, and their ages unless the transaction is in the ledger. */
  ghost predicate SlotsSame(pool: seq<Slot>, next: seq<Slot>, x: Books) {
    && |next| == |pool|
    && forall j :: 0 <= j < |pool| ==>
         && next[j].tx == pool[j].tx
         && (next[j].age == pool[j].age || (Name(pool[j].tx) in x.owner && x.owner[Name(pool[j].tx)].InLedger?))
  }

  lemma SlotsGrownFrame(pool: seq<Slot>, born: Records, w: Books, next: seq<Slot>, x: Books)
    requires SlotsGrown(pool, born, w.owner) && SlotsSame(pool, next, x) && BooksGrow(w, x)
    ensures SlotsGrown(next, born, x.owner)
  {
    hide Name, Grown;
    forall j | 0 <= j < |next| ensures SlotGrown(born, x.owner, next[j]) {
      assert SlotGrown(born, w.owner, pool[j]);
    }
  }

  lemma FaithfulFrame(pool: seq<Slot>, born: Records, next: seq<Slot>, x: Books, ts: seq<Transaction>)
    requires Faithful(pool, born, ts) && SlotsSame(pool, next, x)
    ensures Faithful(next, born, ts)
  {
    hide Name, Grown;
  }

  lemma HandGrows(w: Books, ts: seq<Transaction>, who: Owner, next: Owner)
    requires AllWith(w.owner, Names(ts), who) && !who.InLedger?
    ensures BooksGrow(w, Hand(w, ts, next))
  {
    hide Names;
  }

  lemma PrefixWith(o: map<Bytes, Owner>, k: nat, ts: seq<Transaction>, who: Owner, n: nat)
    requires Owned(o, k, ts, who) && n <= |ts|
    ensures AllWith(o, Names(ts[..n]), who)
  {
    hide Name;
    OwnedNames(o, k, ts, who);
    assert forall t :: t in ts[..n] ==> t in ts;
  }

  /** Every step but a generator's changes the books only by handing over. */
  lemma BooksStep(sys: System, s: State, w: Books, step: Step)
    requires Custody(sys, s, w) && Enabled(sys, s, step) && !step.Generate?
    ensures BooksGrow(w, NextBooks(sys, s, w, step))
  {
    var k := sys.config.perBlock;
    hide Name, Owned, SlotsOk, Issued, Assign, AllWith, Names, BooksGrow, FoundPrefix, ReturnFirst, Reserve;
    assert BooksGrow(w, w) by {
      BooksSame(w);
    }
    match step
    case Select(i) =>
      if Reserve(s.pool, k).1.Some? {
        SlotsReserve(s.pool, w.owner, k, WithMiner(i));
        HandGrows(w, Reserve(s.pool, k).1.value, InPool, WithMiner(i));
      }
    case Send(i) =>
      OwnedNames(w.owner, k, Held(s.miners[i]), WithMiner(i));
      HandGrows(w, Held(s.miners[i]), WithMiner(i), InPipe(w.taken + |s.pipe|));
    case GiveBack(i) =>
      OwnedNames(w.owner, k, Held(s.miners[i]), WithMiner(i));
      HandGrows(w, Held(s.miners[i]), WithMiner(i), InPool);
    case Receive(v) =>
      var ts := s.pipe[0].block.transactions;
      assert w.taken + 0 == w.taken;
      OwnedNames(w.owner, k, ts, InPipe(w.taken));
      HandGrows(w, ts, InPipe(w.taken), WithValidator(v));
      BooksTaken(w, Hand(w, ts, WithValidator(v)), w.taken + 1);
    case CheckPool(v) =>
      var ts := s.validators[v].m.block.transactions;
      PrefixWith(w.owner, k, ts, WithValidator(v), FoundPrefix(s.pool, ts));
      HandGrows(w, ts[..FoundPrefix(s.pool, ts)], WithValidator(v), InPool);
    case Append(v) =>
      OwnedNames(w.owner, k, s.validators[v].m.block.transactions, WithValidator(v));
      HandGrows(w, s.validators[v].m.block.transactions, WithValidator(v), InLedger(|s.ledger|));
    case GiveBackRefused(v) =>
      OwnedNames(w.owner, k, s.validators[v].m.block.transactions, WithValidator(v));
      HandGrows(w, s.validators[v].m.block.transactions, WithValidator(v), InPool);
    case _ =>
  }

  lemma BooksSame(w: Books)
    ensures BooksGrow(w, w)
  {
  }

  lemma BooksTaken(w: Books, x: Books, taken: nat)
    requires BooksGrow(w, x)
    ensures BooksGrow(w, x.(taken := taken))
  {
  }

  /** Every step but inserting and ageing leaves the slots' transactions alone, and resets an age
      only when the transaction is in the ledger. */
  lemma SlotsStep(sys: System, s: State, w: Books, step: Step)
    requires Custody(sys, s, w) && Enabled(sys, s, step) && !step.Generate? && !step.Age?
    ensures SlotsSame(s.pool, Do(sys, s, step).pool, NextBooks(sys, s, w, step))
  {
    hide Name, Owned, SlotsOk, Issued, Accepts, Finds, Fails, ReturnFirst, PoolSpec.Remove, Links, Tip,
         PercentFull, Revived, RewardSum, Reserve, ReturnAll, FoundPrefix, Assign, AllNamed, UniqueNames, Names;
    match step
    case Select(i) =>
      ReserveKeepsTxs(s.pool, sys.config.perBlock);
    case GiveBack(i) =>
      ReturnAllKeepsTxs(s.pool, s.miners[i].transactions);
    case CheckPool(v) =>
      var ts := s.validators[v].m.block.transactions;
      ReturnFirstTouches(s.pool, ts[..FoundPrefix(s.pool, ts)]);
    case GiveBackRefused(v) =>
      ReturnFirstTouches(s.pool, s.validators[v].m.block.transactions);
    case Remove(v) =>
      RemoveSlots(sys, s, w, v);
    case _ =>
  }

  lemma ReserveKeepsTxs(slots: seq<Slot>, k: nat)
    ensures forall j :: 0 <= j < |slots| ==>
      Reserve(slots, k).0[j].tx == slots[j].tx && Reserve(slots, k).0[j].age == slots[j].age
  {
    hide Picked, Copies;
  }

  lemma ReturnAllKeepsTxs(slots: seq<Slot>, ts: seq<Transaction>)
    ensures forall j :: 0 <= j < |slots| ==>
      ReturnAll(slots, ts)[j].tx == slots[j].tx && ReturnAll(slots, ts)[j].age == slots[j].age
  {
    hide Name, ReturnAll;
    forall j | 0 <= j < |slots|
      ensures ReturnAll(slots, ts)[j].tx == slots[j].tx && ReturnAll(slots, ts)[j].age == slots[j].age
    {
      ReturnAt(slots, ts, j);
    }
  }

  lemma RemoveSlots(sys: System, s: State, w: Books, v: nat)
    requires Custody(sys, s, w) && Enabled(sys, s, Step.Remove(v))
    ensures SlotsSame(s.pool, PoolSpec.Remove(s.pool, s.validators[v].m.block.transactions), w)
  {
    var k, ts := sys.config.perBlock, s.validators[v].m.block.transactions;
    var b := AppendedIsOwned(sys, s, w, v);
    OwnedNames(w.owner, k, ts, InLedger(b));
    assert AllNamed(ts) && UniqueNames(s.pool) by {
      hide Name;
    }
    hide Name, Owned, SlotsOk, Issued, PoolSpec.Remove, AllNamed, UniqueNames, Custody, Names;
    forall j | 0 <= j < |s.pool|
      ensures var next := PoolSpec.Remove(s.pool, ts);
              && next[j].tx == s.pool[j].tx
              && (next[j].age == s.pool[j].age || (Name(s.pool[j].tx) in w.owner && w.owner[Name(s.pool[j].tx)].InLedger?))
    {
      RemoveAt(s.pool, ts, j);
    }
  }

  // ----- every step keeps growth --------------------------------------------------------------------

  lemma LiveSlotFaithful(pool: seq<Slot>, born: Records, o: map<Bytes, Owner>, q: nat)
    requires SlotsOk(pool, o) && SlotsGrown(pool, born, o) && q < |pool| && !pool[q].empty
    ensures IsGrown(born, pool[q].tx)
    ensures forall j :: 0 <= j < |pool| && Name(pool[j].tx) == Name(pool[q].tx) ==> pool[j].tx == pool[q].tx
  {
    hide Name, Grown;
    assert SlotGrown(born, o, pool[q]);
    var age: nat := pool[q].age;
    assert pool[q].tx == Grown(born[Name(pool[q].tx)], age);
  }

  lemma SelectedFaithful(pool: seq<Slot>, born: Records, o: map<Bytes, Owner>, k: nat)
    requires SlotsOk(pool, o) && SlotsGrown(pool, born, o) && Reserve(pool, k).1.Some?
    ensures Faithful(pool, born, Reserve(pool, k).1.value)
  {
    var p := Picked(pool, k, |pool|);
    var ts := Copies(pool, p);
    hide Name, Grown, IsGrown, SlotsOk, SlotsGrown, Picked, Reserve;
    forall i | 0 <= i < |ts|
      ensures IsGrown(born, ts[i])
      ensures forall j :: 0 <= j < |pool| && Name(pool[j].tx) == Name(ts[i]) ==> pool[j].tx == ts[i]
    {
      LiveSlotFaithful(pool, born, o, p[i]);
    }
    assert Faithful(pool, born, ts);
    ReserveCopies(pool, k);
  }

  lemma ReserveCopies(pool: seq<Slot>, k: nat)
    ensures Reserve(pool, k).1.Some? ==> Reserve(pool, k).1.value == Copies(pool, Picked(pool, k, |pool|))
  {
  }

  lemma FaithfulIsOriginal(pool: seq<Slot>, born: Records, ts: seq<Transaction>)
    requires Faithful(pool, born, ts)
    ensures Original(born, ts)
  {
  }

  lemma AppendOnlyLedger(sys: System, s: State, step: Step)
    requires Possible(sys, s, step)
    ensures var t := Do(sys, s, step);
            t.ledger == if step.Append? then s.ledger + [s.validators[step.v].m.block] else s.ledger
  {
    hide Name, Accepts, Finds, Fails, Insert, Reserve, Check, AgeAll, ReturnAll, ReturnFirst, PoolSpec.Remove,
         Links, Tip, PercentFull, Revived, NewTx, RewardSum, NewBlock;
  }

  lemma RecordsKept(sys: System, s: State, step: Step)
    requires Enabled(sys, s, step) && !step.Generate?
    ensures Do(sys, s, step).born == s.born
  {
    hide Name, Accepts, Finds, Fails, Reserve, Check, AgeAll, ReturnAll, ReturnFirst, PoolSpec.Remove,
         Links, Tip, PercentFull, Revived, RewardSum, NewBlock;
  }

  lemma CustodyOfSlots(sys: System, s: State, w: Books)
    requires Custody(sys, s, w)
    ensures SlotsOk(s.pool, w.owner)
  {
    hide SlotsOk, Issued;
  }

  lemma QuietGrowth(sys: System, s: State, w: Books, step: Step)
    requires Custody(sys, s, w) && Growth(s, w) && Enabled(sys, s, step) && !step.Generate? && !step.Age?
    ensures Growth(Do(sys, s, step), NextBooks(sys, s, w, step))
  {
    hide Custody, Enabled, Possible, Do, NextBooks, InFlight, Faithful, SlotsGrown, SlotsSame, Original, SlotsOk, Reserve;
    var t, x := Do(sys, s, step), NextBooks(sys, s, w, step);
    BooksStep(sys, s, w, step);
    SlotsStep(sys, s, w, step);
    AppendOnlyLedger(sys, s, step);
    RecordsKept(sys, s, step);
    CustodyOfSlots(sys, s, w);
    SlotsGrownFrame(s.pool, s.born, w, t.pool, x);
    forall ts | InFlight(t, ts) ensures Faithful(t.pool, s.born, ts) {
      InFlightStep(sys, s, step, ts);
      if !InFlight(s, ts) {
        SelectedFaithful(s.pool, s.born, w.owner, sys.config.perBlock);
      }
      FaithfulFrame(s.pool, s.born, t.pool, x, ts);
    }
    forall b | 0 <= b < |t.ledger| ensures Original(s.born, t.ledger[b].transactions) {
      if b >= |s.ledger| {
        AppendedInFlight(sys, s, step);
        FaithfulIsOriginal(s.pool, s.born, t.ledger[b].transactions);
      }
    }
  }

  lemma AppendedInFlight(sys: System, s: State, step: Step)
    requires Possible(sys, s, step) && step.Append?
    ensures InFlight(s, s.validators[step.v].m.block.transactions)
  {
    assert Carries(s.validators[step.v]);
  }

  lemma AgeArithmetic(t: Transaction, age: nat)
    ensures Grown(t, age + 1) ==
      if (age + 1) % AGE_STEP == 0 then Grown(t, age).(reward := Grown(t, age).reward + 1) else Grown(t, age)
  {
  }

  lemma AgeGrowth(sys: System, s: State, w: Books, step: Step)
    requires Custody(sys, s, w) && Growth(s, w) && Enabled(sys, s, step) && step.Age?
    ensures Growth(Do(sys, s, step), w)
  {
    var t := Do(sys, s, step);
    assert t == s.(pool := AgeAll(s.pool));
    assert SlotsOk(s.pool, w.owner);
    AgeKeepsNames(s.pool);
    hide Name, Custody, Enabled, Possible, Do, Grown, IsGrown;
    forall j | 0 <= j < |s.pool| ensures SlotGrown(s.born, w.owner, t.pool[j]) {
      assert SlotGrown(s.born, w.owner, s.pool[j]);
      if !s.pool[j].empty {
        assert w.owner[Name(s.pool[j].tx)] == InPool;
        AgeArithmetic(s.born[Name(s.pool[j].tx)], s.pool[j].age);
      }
    }
    forall ts | InFlight(t, ts) ensures Faithful(t.pool, s.born, ts) {
      AgeLeavesFlights(sys, s, w, ts);
    }
  }

  /** A reserved slot never ages: whatever is in flight keeps matching its slot. */
  lemma AgeLeavesFlights(sys: System, s: State, w: Books, ts: seq<Transaction>)
    requires Custody(sys, s, w) && InFlight(s, ts) && Faithful(s.pool, s.born, ts)
    ensures Faithful(AgeAll(s.pool), s.born, ts)
  {
    var who := InFlightOwned(sys, s, w, ts);
    AgeKeepsNames(s.pool);
    assert SlotsOk(s.pool, w.owner);
    hide Name, Custody, IsGrown, InFlight;
    forall i, j | 0 <= i < |ts| && 0 <= j < |s.pool| && Name(AgeAll(s.pool)[j].tx) == Name(ts[i])
      ensures AgeAll(s.pool)[j].tx == ts[i]
    {
      assert w.owner[Name(ts[i])] == who;
      assert s.pool[j].empty;
    }
  }

  lemma InsertGrown(pool: seq<Slot>, born: Records, o: map<Bytes, Owner>, p: nat, tx: Transaction)
    requires SlotsGrown(pool, born, o) && p < |pool| && Name(tx) !in o
    ensures SlotsGrown(pool[p := Slot(tx, false, 0)], born[Name(tx) := tx], o[Name(tx) := InPool])
  {
    var next := pool[p := Slot(tx, false, 0)];
    ZeroAge(tx);
    hide Name, Grown;
    forall j | 0 <= j < |next| ensures SlotGrown(born[Name(tx) := tx], o[Name(tx) := InPool], next[j]) {
      assert j != p ==> SlotGrown(born, o, pool[j]);
    }
  }

  lemma GenerateEffect(sys: System, s: State, w: Books, pid: nat, d: Draw)
    requires Enabled(sys, s, Generate(pid, d))
    ensures var t, x := Do(sys, s, Generate(pid, d)), NextBooks(sys, s, w, Generate(pid, d));
            var tx, p := NewTx(pid, Counter(s, pid), d), FirstEmpty(s.pool);
            && t.miners == s.miners && t.pipe == s.pipe && t.validators == s.validators && t.ledger == s.ledger
            && 1 <= tx.reward <= 3
            && t.born == (if Insert(s.pool, tx).1.Inserted? then s.born[Name(tx) := tx] else s.born)
            && if Insert(s.pool, tx).1.Inserted?
               then && p < |s.pool| && t.pool == s.pool[p := Slot(tx, false, 0)]
                    && x == w.(owner := w.owner[Name(tx) := InPool])
               else t.pool == s.pool && x == w
  {
    hide Name, IdText, IsLiveDuplicate, PercentFull;
  }

  lemma NewNameIsFresh(sys: System, s: State, w: Books, pid: nat, d: Draw)
    requires Custody(sys, s, w) && Enabled(sys, s, Generate(pid, d))
    ensures Name(NewTx(pid, Counter(s, pid), d)) !in w.owner
  {
    hide Name, IdText, Owned, SlotsOk, Issued;
  }

  lemma GenerateGrowth(sys: System, s: State, w: Books, pid: nat, d: Draw)
    requires Custody(sys, s, w) && Growth(s, w) && Enabled(sys, s, Generate(pid, d))
    ensures Growth(Do(sys, s, Generate(pid, d)), NextBooks(sys, s, w, Generate(pid, d)))
  {
    hide Name, Insert, Enabled, Possible, Do, NextBooks, Custody, IdText, NewTx, SlotsGrown, Faithful, Original;
    var tx := NewTx(pid, Counter(s, pid), d);
    var t, x := Do(sys, s, Generate(pid, d)), NextBooks(sys, s, w, Generate(pid, d));
    GenerateEffect(sys, s, w, pid, d);
    if Insert(s.pool, tx).1.Inserted? {
      var p := FirstEmpty(s.pool);
      NewNameIsFresh(sys, s, w, pid, d);
      InsertGrown(s.pool, s.born, w.owner, p, tx);
      forall ts | InFlight(t, ts) ensures Faithful(t.pool, t.born, ts) {
        assert InFlight(s, ts);
        InsertLeavesFlights(sys, s, w, ts, p, tx);
      }
      forall b | 0 <= b < |t.ledger| ensures Original(t.born, t.ledger[b].transactions) {
        LedgerOwned(sys, s, w, b);
        ExtendOriginal(s.born, w.owner, sys.config.perBlock, s.ledger[b].transactions, InLedger(b), tx);
      }
    } else {
      assert forall ts :: InFlight(t, ts) ==> InFlight(s, ts);
    }
  }

  lemma ZeroAge(t: Transaction)
    ensures Grown(t, 0) == t
  {
  }

  lemma LedgerOwned(sys: System, s: State, w: Books, b: nat)
    requires Custody(sys, s, w) && b < |s.ledger|
    ensures Owned(w.owner, sys.config.perBlock, s.ledger[b].transactions, InLedger(b))
  {
    hide Owned, SlotsOk, Issued, AppendedOk;
  }

  lemma ExtendOriginal(born: Records, o: map<Bytes, Owner>, k: nat, ts: seq<Transaction>, who: Owner, tx: Transaction)
    requires Owned(o, k, ts, who) && Name(tx) !in o && Original(born, ts)
    ensures Original(born[Name(tx) := tx], ts)
  {
    hide Name, Grown;
    forall i | 0 <= i < |ts| ensures IsGrown(born[Name(tx) := tx], ts[i]) {
      assert IsGrown(born, ts[i]);
    }
  }

  lemma InsertLeavesFlights(sys: System, s: State, w: Books, ts: seq<Transaction>, p: nat, tx: Transaction)
    requires Custody(sys, s, w) && InFlight(s, ts) && Faithful(s.pool, s.born, ts)
    requires p < |s.pool| && Name(tx) !in w.owner
    ensures Faithful(s.pool[p := Slot(tx, false, 0)], s.born[Name(tx) := tx], ts)
  {
    var who := InFlightOwned(sys, s, w, ts);
    hide Name, Custody, Grown, InFlight, IsGrown;
    FaithfulIsOriginal(s.pool, s.born, ts);
    ExtendOriginal(s.born, w.owner, sys.config.perBlock, ts, who, tx);
    assert forall i :: 0 <= i < |ts| ==> Name(ts[i]) != Name(tx);
  }

  /** The books explain the state: who holds what, and how every transaction came to look as it
      does. */
  ghost predicate Explained(sys: System, s: State) {
    exists w: Books :: Custody(sys, s, w) && Growth(s, w)
  }

  lemma ExplainedStep(sys: System, s: State, step: Step)
    requires Explained(sys, s) && Enabled(sys, s, step)
    ensures Explained(sys, Do(sys, s, step))
  {
    hide Custody, Growth, Enabled, Possible, Do, NextBooks;
    var w: Books :| Custody(sys, s, w) && Growth(s, w);
    CustodyStep(sys, s, w, step);
    if step.Generate? {
      GenerateGrowth(sys, s, w, step.pid, step.draw);
    } else if step.Age? {
      AgeGrowth(sys, s, w, step);
      AgeBooks(sys, s, w, step);
    } else {
      QuietGrowth(sys, s, w, step);
    }
  }

  lemma AgeBooks(sys: System, s: State, w: Books, step: Step)
    requires Enabled(sys, s, step) && step.Age?
    ensures NextBooks(sys, s, w, step) == w
  {
  }

  lemma ExplainedAtStart(sys: System)
    requires ValidConfig(sys.config)
    ensures Explained(sys, Init(sys))
  {
    var w := Books(map[], 0);
    var s := Init(sys);
    assert Name(ZERO_TX) == [];
    assert Custody(sys, s, w) by {
      hide Name;
    }
    assert Growth(s, w) by {
      hide Name;
    }
  }

  lemma ExplainedAlways(sys: System, s: State)
    requires Reachable(sys, s)
    ensures Explained(sys, s)
  {
    hide Explained, Enabled, Possible, Do;
    forall s, step | Explained(sys, s) && Enabled(sys, s, step) ensures Explained(sys, Do(sys, s, step)) {
      ExplainedStep(sys, s, step);
    }
    if ValidConfig(sys.config) {
      ExplainedAtStart(sys);
    }
    InductiveIsInvariant(sys, s => Explained(sys, s), s);
  }
}
