/** Who holds which transaction. Consumed and reserved slots keep their contents, so the
    validators' pool check cannot tell a spent transaction from a live one; that none is committed
    twice rests on every identifier having one holder at a time. */
module ProtocolCustody {
  import opened Bytes
  import opened Data
  import opened TxIds
  import opened Pow
  import opened Chain
  import opened PoolSpec
  import opened Protocol

  datatype Owner = InPool | WithMiner(i: nat) | InPipe(n: nat) | WithValidator(v: nat) | InLedger(b: nat)

  /** The bookkeeping that explains a state: the last known holder of every identifier ever
      inserted, and how many messages have left the pipe. */
  datatype Books = Books(owner: map<Bytes, Owner>, taken: nat)

  // ----- the invariant ---------------------------------------------------------------------------

  /** `ts` is a block's worth of distinct transactions, all held by `who`. */
  ghost predicate Owned(o: map<Bytes, Owner>, k: nat, ts: seq<Transaction>, who: Owner) {
    && |ts| == k && AllNamed(ts) && DistinctNames(ts)
    && forall i :: 0 <= i < |ts| ==> Name(ts[i]) in o && o[Name(ts[i])] == who
  }

  ghost predicate SlotsOk(pool: seq<Slot>, o: map<Bytes, Owner>) {
    && UniqueNames(pool)
    && (forall j :: 0 <= j < |pool| && Name(pool[j].tx) != [] ==> Name(pool[j].tx) in o)
    && (forall j :: 0 <= j < |pool| && !pool[j].empty ==>
          Name(pool[j].tx) != [] && Name(pool[j].tx) in o && o[Name(pool[j].tx)] == InPool)
  }

  function Held(m: Miner): seq<Transaction> {
    match m
    case Reserved(_, _, ts) => ts
    case Mined(b) => b.transactions
    case GivingUp(ts) => ts
    case _ => []
  }

  predicate Holds(m: Miner) { m.Reserved? || m.Mined? || m.GivingUp? }

  predicate Carries(x: Validator) { x.Received? || x.Linked? || x.Checked? || x.Cleared? || x.Refused? }

  ghost predicate MinersOk(o: map<Bytes, Owner>, k: nat, miners: seq<Miner>) {
    forall i :: 0 <= i < |miners| && Holds(miners[i]) ==> Owned(o, k, Held(miners[i]), WithMiner(i))
  }

  ghost predicate ValidatorsOk(o: map<Bytes, Owner>, k: nat, validators: seq<Validator>) {
    forall v :: 0 <= v < |validators| && Carries(validators[v]) ==>
      Owned(o, k, validators[v].m.block.transactions, WithValidator(v))
  }

  ghost predicate PipeOk(o: map<Bytes, Owner>, k: nat, pipe: seq<Message>, taken: nat) {
    forall n :: 0 <= n < |pipe| ==> Owned(o, k, pipe[n].block.transactions, InPipe(taken + n))
  }

  ghost predicate LedgerOk(o: map<Bytes, Owner>, k: nat, ledger: seq<Block>) {
    forall b :: 0 <= b < |ledger| ==> Owned(o, k, ledger[b].transactions, InLedger(b))
  }

  /** A block being removed from the pool, or reported, is already in the ledger. */
  ghost predicate AppendedOk(ledger: seq<Block>, validators: seq<Validator>) {
    forall v :: 0 <= v < |validators| && validators[v].Appended? ==>
      exists b :: 0 <= b < |ledger| && ledger[b].transactions == validators[v].m.block.transactions
  }

  ghost predicate Custody(sys: System, s: State, w: Books) {
    var o, k := w.owner, sys.config.perBlock;
    && k > 0
    && SlotsOk(s.pool, o)
    && (forall name :: name in o ==> Issued(s.counters, name))
    && MinersOk(o, k, s.miners)
    && PipeOk(o, k, s.pipe, w.taken)
    && ValidatorsOk(o, k, s.validators)
    && LedgerOk(o, k, s.ledger)
    && AppendedOk(s.ledger, s.validators)
  }

  // ----- how the books change ----------------------------------------------------------------------

  function Assign(o: map<Bytes, Owner>, names: set<Bytes>, who: Owner): map<Bytes, Owner> {
    map n | n in o :: if n in names then who else o[n]
  }

  function Hand(w: Books, ts: seq<Transaction>, who: Owner): Books {
    w.(owner := Assign(w.owner, Names(ts), who))
  }

  ghost function NextBooks(sys: System, s: State, w: Books, step: Step): Books
    requires Enabled(sys, s, step)
  {
    match step
    case Generate(pid, d) =>
      var tx := NewTx(pid, Counter(s, pid), d);
      if Insert(s.pool, tx).1.Inserted?
      then w.(owner := w.owner[Name(tx) := InPool])
      else w
    case Select(i) =>
      (match Reserve(s.pool, sys.config.perBlock).1
       case Some(ts) => Hand(w, ts, WithMiner(i))
       case None => w)
    case Send(i) => Hand(w, s.miners[i].block.transactions, InPipe(w.taken + |s.pipe|))
    case GiveBack(i) => Hand(w, s.miners[i].transactions, InPool)
    case Receive(v) => Hand(w, s.pipe[0].block.transactions, WithValidator(v)).(taken := w.taken + 1)
    case CheckPool(v) =>
      var ts := s.validators[v].m.block.transactions;
      if Check(s.pool, ts).1 then w else Hand(w, ts[..FoundPrefix(s.pool, ts)], InPool)
    case Append(v) => Hand(w, s.validators[v].m.block.transactions, InLedger(|s.ledger|))
    case GiveBackRefused(v) => Hand(w, s.validators[v].m.block.transactions, InPool)
    case _ => w
  }

  // ----- handing over --------------------------------------------------------------------------------

  ghost predicate AllWith(o: map<Bytes, Owner>, names: set<Bytes>, who: Owner) {
    forall n :: n in names ==> n in o && o[n] == who
  }

  lemma OwnedNames(o: map<Bytes, Owner>, k: nat, ts: seq<Transaction>, who: Owner)
    requires Owned(o, k, ts, who)
    ensures AllWith(o, Names(ts), who)
  {
  }

  lemma OwnedAfterHand(o: map<Bytes, Owner>, k: nat, ts: seq<Transaction>, who: Owner, next: Owner)
    requires Owned(o, k, ts, who)
    ensures Owned(Assign(o, Names(ts), next), k, ts, next)
  {
    hide Name, AllNamed, DistinctNames;
    assert forall i :: 0 <= i < |ts| ==> ts[i] in ts;
  }

  /** Handing names over from `who` to `next` leaves every other holder's hold intact. */
  lemma OthersKeep(o: map<Bytes, Owner>, names: set<Bytes>, who: Owner, next: Owner, k: nat, ts: seq<Transaction>, other: Owner)
    requires AllWith(o, names, who) && Owned(o, k, ts, other) && other != who
    ensures Owned(Assign(o, names, next), k, ts, other)
  {
    hide Name, AllNamed, DistinctNames;
    forall i | 0 <= i < |ts| ensures Name(ts[i]) !in names {
      assert o[Name(ts[i])] == other;
    }
  }

  lemma MinersKeep(o: map<Bytes, Owner>, names: set<Bytes>, who: Owner, next: Owner, k: nat, miners: seq<Miner>, skip: nat)
    requires AllWith(o, names, who) && MinersOk(o, k, miners) && (who.WithMiner? ==> who.i == skip)
    ensures forall i :: 0 <= i < |miners| && i != skip && Holds(miners[i]) ==>
      Owned(Assign(o, names, next), k, Held(miners[i]), WithMiner(i))
    ensures !who.WithMiner? ==> MinersOk(Assign(o, names, next), k, miners)
  {
    hide Owned, Assign, AllWith, Held, Holds;
    forall i | 0 <= i < |miners| && (i != skip || !who.WithMiner?) && Holds(miners[i])
      ensures Owned(Assign(o, names, next), k, Held(miners[i]), WithMiner(i))
    {
      OthersKeep(o, names, who, next, k, Held(miners[i]), WithMiner(i));
    }
  }

  lemma ValidatorsKeep(o: map<Bytes, Owner>, names: set<Bytes>, who: Owner, next: Owner, k: nat,
                       validators: seq<Validator>, skip: nat)
    requires AllWith(o, names, who) && ValidatorsOk(o, k, validators) && (who.WithValidator? ==> who.v == skip)
    ensures forall v :: 0 <= v < |validators| && v != skip && Carries(validators[v]) ==>
      Owned(Assign(o, names, next), k, validators[v].m.block.transactions, WithValidator(v))
    ensures !who.WithValidator? ==> ValidatorsOk(Assign(o, names, next), k, validators)
  {
    hide Owned, Assign, AllWith;
    forall v | 0 <= v < |validators| && (v != skip || !who.WithValidator?) && Carries(validators[v])
      ensures Owned(Assign(o, names, next), k, validators[v].m.block.transactions, WithValidator(v))
    {
      OthersKeep(o, names, who, next, k, validators[v].m.block.transactions, WithValidator(v));
    }
  }

  lemma PipeKeeps(o: map<Bytes, Owner>, names: set<Bytes>, who: Owner, next: Owner, k: nat, pipe: seq<Message>, taken: nat)
    requires AllWith(o, names, who) && PipeOk(o, k, pipe, taken)
    requires who.InPipe? ==> who.n < taken
    ensures PipeOk(Assign(o, names, next), k, pipe, taken)
  {
    hide Owned, Assign, AllWith;
    forall n | 0 <= n < |pipe|
      ensures Owned(Assign(o, names, next), k, pipe[n].block.transactions, InPipe(taken + n))
    {
      OthersKeep(o, names, who, next, k, pipe[n].block.transactions, InPipe(taken + n));
    }
  }

  lemma LedgerKeeps(o: map<Bytes, Owner>, names: set<Bytes>, who: Owner, next: Owner, k: nat, ledger: seq<Block>)
    requires AllWith(o, names, who) && LedgerOk(o, k, ledger) && !who.InLedger?
    ensures LedgerOk(Assign(o, names, next), k, ledger)
  {
    hide Owned, Assign, AllWith;
    forall b | 0 <= b < |ledger| ensures Owned(Assign(o, names, next), k, ledger[b].transactions, InLedger(b)) {
      OthersKeep(o, names, who, next, k, ledger[b].transactions, InLedger(b));
    }
  }

  lemma SlotsKeep(pool: seq<Slot>, o: map<Bytes, Owner>, names: set<Bytes>, who: Owner, next: Owner)
    requires SlotsOk(pool, o) && AllWith(o, names, who) && who != InPool
    ensures SlotsOk(pool, Assign(o, names, next))
  {
    hide Name, UniqueNames;
  }

  lemma IssuedKeeps(counters: map<nat, nat>, o: map<Bytes, Owner>, names: set<Bytes>, next: Owner)
    requires forall name :: name in o ==> Issued(counters, name)
    ensures forall name :: name in Assign(o, names, next) ==> Issued(counters, name)
  {
  }

  // ----- the pool ------------------------------------------------------------------------------------

  /** Same transactions in every slot, and nothing newly live. */
  lemma SlotsShrink(pool: seq<Slot>, next: seq<Slot>, o: map<Bytes, Owner>)
    requires SlotsOk(pool, o) && |next| == |pool|
    requires forall j :: 0 <= j < |pool| ==> Name(next[j].tx) == Name(pool[j].tx) && (pool[j].empty ==> next[j].empty)
    ensures SlotsOk(next, o)
  {
    hide Name;
  }

  lemma AgeKeepsNames(pool: seq<Slot>)
    ensures forall j :: 0 <= j < |pool| ==>
      Name(AgeAll(pool)[j].tx) == Name(pool[j].tx) && AgeAll(pool)[j].empty == pool[j].empty
  {
    forall j | 0 <= j < |pool|
      ensures Name(AgeAll(pool)[j].tx) == Name(pool[j].tx) && AgeAll(pool)[j].empty == pool[j].empty
    {
      assert AgeSlot(pool[j]).tx.txId == pool[j].tx.txId;
    }
  }

  lemma RemoveAt(pool: seq<Slot>, ts: seq<Transaction>, j: nat)
    requires UniqueNames(pool) && AllNamed(ts) && j < |pool|
    ensures PoolSpec.Remove(pool, ts)[j] == if Name(pool[j].tx) in Names(ts) then MakeFree(pool[j]) else pool[j]
  {
    RemoveIsMatching(pool, ts);
  }

  lemma ReturnAt(pool: seq<Slot>, ts: seq<Transaction>, j: nat)
    requires j < |pool|
    ensures ReturnAll(pool, ts)[j] == if Name(pool[j].tx) in Names(ts) then MakeLive(pool[j]) else pool[j]
  {
  }

  lemma SlotsReturn(pool: seq<Slot>, o: map<Bytes, Owner>, ts: seq<Transaction>, who: Owner)
    requires SlotsOk(pool, o) && AllWith(o, Names(ts), who) && AllNamed(ts)
    ensures SlotsOk(ReturnAll(pool, ts), Assign(o, Names(ts), InPool))
  {
    hide Name, ReturnAll;
    var next := ReturnAll(pool, ts);
    forall j | 0 <= j < |pool|
      ensures next[j].tx == pool[j].tx
      ensures next[j].empty == (pool[j].empty && Name(pool[j].tx) !in Names(ts))
    {
      ReturnAt(pool, ts, j);
    }
  }

  lemma SlotsReserve(pool: seq<Slot>, o: map<Bytes, Owner>, k: nat, next: Owner)
    requires SlotsOk(pool, o) && Reserve(pool, k).1.Some?
    ensures var ts := Reserve(pool, k).1.value;
            && AllWith(o, Names(ts), InPool)
            && Owned(o, k, ts, InPool)
            && SlotsOk(Reserve(pool, k).0, Assign(o, Names(ts), next))
  {
    hide Name;
    var p := Picked(pool, k, |pool|);
    var ts := Copies(pool, p);
    PickedAreDistinct(pool, k, |pool|);
    forall i | 0 <= i < |ts| ensures Name(ts[i]) != [] && Name(ts[i]) in o && o[Name(ts[i])] == InPool {
      assert !pool[p[i]].empty;
    }
    var m := Mark(pool, p);
    forall j | 0 <= j < |pool| ensures m[j].tx == pool[j].tx && (!m[j].empty ==> !pool[j].empty && Name(pool[j].tx) !in Names(ts)) {
      CopiesNameTheirSlots(pool, p, j);
    }
  }

  lemma SlotsInsert(pool: seq<Slot>, o: map<Bytes, Owner>, tx: Transaction)
    requires SlotsOk(pool, o) && Name(tx) != [] && Name(tx) !in o
    requires Insert(pool, tx).1.Inserted?
    ensures SlotsOk(Insert(pool, tx).0, o[Name(tx) := InPool])
  {
    hide Name, IsLiveDuplicate;
    var p := FirstEmpty(pool);
    var next := pool[p := Slot(tx, false, 0)];
    assert forall j :: 0 <= j < |pool| && j != p ==> next[j] == pool[j] && Name(pool[j].tx) != Name(tx);
  }

  lemma IssuedGrows(counters: map<nat, nat>, pid: nat, n: nat, name: Bytes)
    requires Issued(counters, name) && (pid in counters ==> counters[pid] <= n)
    ensures Issued(counters[pid := n], name)
  {
    hide IdText;
    var p: nat, c: nat :| p in counters && c < counters[p] && name == IdText(p, c);
    var next := counters[pid := n];
    assert p in next && c < next[p];
  }

  lemma OwnedExtend(o: map<Bytes, Owner>, k: nat, ts: seq<Transaction>, who: Owner, name: Bytes, next: Owner)
    requires Owned(o, k, ts, who) && name !in o
    ensures Owned(o[name := next], k, ts, who)
  {
    hide Name, AllNamed, DistinctNames;
  }

  // ----- every step keeps custody -----------------------------------------------------------------------

  lemma GenerateKeeps(sys: System, s: State, w: Books, pid: nat, d: Draw)
    requires Custody(sys, s, w) && Enabled(sys, s, Generate(pid, d))
    ensures Custody(sys, Do(sys, s, Generate(pid, d)), NextBooks(sys, s, w, Generate(pid, d)))
  {
    hide Name, Owned, SlotsOk, Issued, Insert, IdText, PercentFull;
    var o, k, c := w.owner, sys.config.perBlock, Counter(s, pid);
    var tx := NewTx(pid, c, d);
    var t := Do(sys, s, Generate(pid, d));
    assert IdText(pid, c) !in o;
    forall name | name in o ensures Issued(t.counters, name) {
      IssuedGrows(s.counters, pid, c + 1, name);
    }
    if Insert(s.pool, tx).1.Inserted? {
      var o' := o[Name(tx) := InPool];
      SlotsInsert(s.pool, o, tx);
      IssuedNow(t.counters, pid, c);
      forall i | 0 <= i < |s.miners| && Holds(s.miners[i]) ensures Owned(o', k, Held(s.miners[i]), WithMiner(i)) {
        OwnedExtend(o, k, Held(s.miners[i]), WithMiner(i), Name(tx), InPool);
      }
      forall n | 0 <= n < |s.pipe| ensures Owned(o', k, s.pipe[n].block.transactions, InPipe(w.taken + n)) {
        OwnedExtend(o, k, s.pipe[n].block.transactions, InPipe(w.taken + n), Name(tx), InPool);
      }
      forall v | 0 <= v < |s.validators| && Carries(s.validators[v])
        ensures Owned(o', k, s.validators[v].m.block.transactions, WithValidator(v))
      {
        OwnedExtend(o, k, s.validators[v].m.block.transactions, WithValidator(v), Name(tx), InPool);
      }
      forall b | 0 <= b < |s.ledger| ensures Owned(o', k, s.ledger[b].transactions, InLedger(b)) {
        OwnedExtend(o, k, s.ledger[b].transactions, InLedger(b), Name(tx), InPool);
      }
    }
  }

  lemma IssuedNow(counters: map<nat, nat>, pid: nat, c: nat)
    requires pid in counters && c < counters[pid]
    ensures Issued(counters, IdText(pid, c))
  {
  }

  lemma SelectKeeps(sys: System, s: State, w: Books, i: nat)
    requires Custody(sys, s, w) && Enabled(sys, s, Select(i))
    ensures Custody(sys, Do(sys, s, Select(i)), NextBooks(sys, s, w, Select(i)))
  {
    var o, k := w.owner, sys.config.perBlock;
    hide Name, Owned, SlotsOk, Issued, Reserve, AllWith, Assign, Names;
    match Reserve(s.pool, k).1
    case None =>
    case Some(ts) =>
      var names := Names(ts);
      SlotsReserve(s.pool, o, k, WithMiner(i));
      OwnedAfterHand(o, k, ts, InPool, WithMiner(i));
      IssuedKeeps(s.counters, o, names, WithMiner(i));
      MinersKeep(o, names, InPool, WithMiner(i), k, s.miners, i);
      PipeKeeps(o, names, InPool, WithMiner(i), k, s.pipe, w.taken);
      ValidatorsKeep(o, names, InPool, WithMiner(i), k, s.validators, 0);
      LedgerKeeps(o, names, InPool, WithMiner(i), k, s.ledger);
  }

  lemma SendKeeps(sys: System, s: State, w: Books, i: nat)
    requires Custody(sys, s, w) && Enabled(sys, s, Send(i))
    ensures Custody(sys, Do(sys, s, Send(i)), NextBooks(sys, s, w, Send(i)))
  {
    var o, k := w.owner, sys.config.perBlock;
    hide Name, Owned, SlotsOk, Issued, AllWith, Assign, Names;
    var ts := s.miners[i].block.transactions;
    var who, next := WithMiner(i), InPipe(w.taken + |s.pipe|);
    assert Owned(o, k, ts, who);
    OwnedNames(o, k, ts, who);
    OwnedAfterHand(o, k, ts, who, next);
    SlotsKeep(s.pool, o, Names(ts), who, next);
    IssuedKeeps(s.counters, o, Names(ts), next);
    MinersKeep(o, Names(ts), who, next, k, s.miners, i);
    PipeKeeps(o, Names(ts), who, next, k, s.pipe, w.taken);
    ValidatorsKeep(o, Names(ts), who, next, k, s.validators, 0);
    LedgerKeeps(o, Names(ts), who, next, k, s.ledger);
  }

  lemma GiveBackKeeps(sys: System, s: State, w: Books, i: nat)
    requires Custody(sys, s, w) && Enabled(sys, s, GiveBack(i))
    ensures Custody(sys, Do(sys, s, GiveBack(i)), NextBooks(sys, s, w, GiveBack(i)))
  {
    var o, k := w.owner, sys.config.perBlock;
    var ts := s.miners[i].transactions;
    var who := WithMiner(i);
    assert Owned(o, k, ts, who);
    hide Name, SlotsOk, Issued, AllWith, Assign, Names, ReturnAll, Revived;
    OwnedNames(o, k, ts, who);
    SlotsReturn(s.pool, o, ts, who);
    hide Owned;
    IssuedKeeps(s.counters, o, Names(ts), InPool);
    MinersKeep(o, Names(ts), who, InPool, k, s.miners, i);
    PipeKeeps(o, Names(ts), who, InPool, k, s.pipe, w.taken);
    ValidatorsKeep(o, Names(ts), who, InPool, k, s.validators, 0);
    LedgerKeeps(o, Names(ts), who, InPool, k, s.ledger);
  }

  lemma PipeTail(o: map<Bytes, Owner>, k: nat, pipe: seq<Message>, taken: nat)
    requires PipeOk(o, k, pipe, taken) && pipe != []
    ensures Owned(o, k, pipe[0].block.transactions, InPipe(taken)) && PipeOk(o, k, pipe[1..], taken + 1)
  {
    hide Owned;
    assert taken + 0 == taken;
    forall n | 0 <= n < |pipe| - 1 ensures Owned(o, k, pipe[1..][n].block.transactions, InPipe(taken + 1 + n)) {
      assert pipe[1..][n] == pipe[n + 1] && taken + (n + 1) == taken + 1 + n;
    }
  }

  lemma OwnedLength(o: map<Bytes, Owner>, k: nat, ts: seq<Transaction>, who: Owner)
    requires Owned(o, k, ts, who)
    ensures |ts| == k
  {
  }

  lemma ReceiveKeeps(sys: System, s: State, w: Books, v: nat)
    requires Custody(sys, s, w) && Enabled(sys, s, Receive(v))
    ensures Custody(sys, Do(sys, s, Receive(v)), NextBooks(sys, s, w, Receive(v)))
  {
    hide Name, Owned, AllWith, Assign, Names, SlotsOk, Issued, AppendedOk, PipeOk, LedgerOk;
    var o, k := w.owner, sys.config.perBlock;
    var ts := s.pipe[0].block.transactions;
    var who, next := InPipe(w.taken), WithValidator(v);
    PipeTail(o, k, s.pipe, w.taken);
    OwnedLength(o, k, ts, who);
    AppendedKeeps(s.ledger, s.validators, v, Received(s.pipe[0]));
    OwnedNames(o, k, ts, who);
    OwnedAfterHand(o, k, ts, who, next);
    SlotsKeep(s.pool, o, Names(ts), who, next);
    IssuedKeeps(s.counters, o, Names(ts), next);
    MinersKeep(o, Names(ts), who, next, k, s.miners, 0);
    PipeKeeps(o, Names(ts), who, next, k, s.pipe[1..], w.taken + 1);
    ValidatorsKeep(o, Names(ts), who, next, k, s.validators, v);
    LedgerKeeps(o, Names(ts), who, next, k, s.ledger);
  }

  lemma AppendKeeps(sys: System, s: State, w: Books, v: nat)
    requires Custody(sys, s, w) && Enabled(sys, s, Append(v))
    ensures Custody(sys, Do(sys, s, Append(v)), NextBooks(sys, s, w, Append(v)))
  {
    hide Name, Owned, SlotsOk, Issued, AllWith, Assign, Names, AppendedOk;
    var o, k := w.owner, sys.config.perBlock;
    var m := s.validators[v].m;
    var ts := m.block.transactions;
    var who, next := WithValidator(v), InLedger(|s.ledger|);
    assert Owned(o, k, ts, who);
    OwnedNames(o, k, ts, who);
    OwnedAfterHand(o, k, ts, who, next);
    SlotsKeep(s.pool, o, Names(ts), who, next);
    IssuedKeeps(s.counters, o, Names(ts), next);
    MinersKeep(o, Names(ts), who, next, k, s.miners, 0);
    PipeKeeps(o, Names(ts), who, next, k, s.pipe, w.taken);
    ValidatorsKeep(o, Names(ts), who, next, k, s.validators, v);
    LedgerKeeps(o, Names(ts), who, next, k, s.ledger);
    AppendedGrows(s.ledger, s.validators, m, v);
  }

  lemma AppendedGrows(ledger: seq<Block>, validators: seq<Validator>, m: Message, v: nat)
    requires AppendedOk(ledger, validators) && v < |validators|
    ensures AppendedOk(ledger + [m.block], validators[v := Appended(m)])
  {
    var l, x := ledger + [m.block], validators[v := Appended(m)];
    forall u | 0 <= u < |x| && x[u].Appended?
      ensures exists b :: 0 <= b < |l| && l[b].transactions == x[u].m.block.transactions
    {
      if u == v {
        assert l[|ledger|] == m.block;
      } else {
        var b :| 0 <= b < |ledger| && ledger[b].transactions == validators[u].m.block.transactions;
        assert l[b] == ledger[b];
      }
    }
  }

  /** Returning some of a validator's transactions, and the validator letting go of the rest. */
  lemma ReturnFromValidator(sys: System, s: State, w: Books, v: nat, back: seq<Transaction>)
    requires Custody(sys, s, w) && ValidatorAt(s, v) && Carries(s.validators[v])
    requires back <= s.validators[v].m.block.transactions
    ensures ReturnFirst(s.pool, back) == ReturnAll(s.pool, back)
    ensures var o := Assign(w.owner, Names(back), InPool);
            var k := sys.config.perBlock;
            && SlotsOk(ReturnFirst(s.pool, back), o)
            && (forall name :: name in o ==> Issued(s.counters, name))
            && MinersOk(o, k, s.miners) && PipeOk(o, k, s.pipe, w.taken) && LedgerOk(o, k, s.ledger)
            && forall u :: 0 <= u < |s.validators| && u != v && Carries(s.validators[u]) ==>
                 Owned(o, k, s.validators[u].m.block.transactions, WithValidator(u))
  {
    var o, k := w.owner, sys.config.perBlock;
    var ts := s.validators[v].m.block.transactions;
    var who := WithValidator(v);
    assert Owned(o, k, ts, who);
    assert AllNamed(back) && AllWith(o, Names(back), who) by {
      hide Name;
      OwnedNames(o, k, ts, who);
      assert forall t :: t in back ==> t in ts;
    }
    assert UniqueNames(s.pool);
    hide Name, Owned, SlotsOk, Issued, AllWith, Assign, Names, ReturnAll, ReturnFirst, UniqueNames, AllNamed;
    ReturnFirstIsReturnAll(s.pool, back);
    SlotsReturn(s.pool, o, back, who);
    IssuedKeeps(s.counters, o, Names(back), InPool);
    MinersKeep(o, Names(back), who, InPool, k, s.miners, 0);
    PipeKeeps(o, Names(back), who, InPool, k, s.pipe, w.taken);
    ValidatorsKeep(o, Names(back), who, InPool, k, s.validators, v);
    LedgerKeeps(o, Names(back), who, InPool, k, s.ledger);
  }

  lemma AppendedKeeps(ledger: seq<Block>, validators: seq<Validator>, v: nat, x: Validator)
    requires AppendedOk(ledger, validators) && v < |validators| && !x.Appended?
    ensures AppendedOk(ledger, validators[v := x])
  {
    var y := validators[v := x];
    forall u | 0 <= u < |y| && y[u].Appended?
      ensures exists b :: 0 <= b < |ledger| && ledger[b].transactions == y[u].m.block.transactions
    {
      assert validators[u].Appended?;
    }
  }

  lemma ReturningKeeps(sys: System, s: State, w: Books, v: nat, back: seq<Transaction>, valid: bool)
    requires Custody(sys, s, w) && ValidatorAt(s, v) && Carries(s.validators[v])
    requires back <= s.validators[v].m.block.transactions
    ensures Custody(sys, SetValidator(s.(pool := ReturnFirst(s.pool, back)), v, Reporting(s.validators[v].m, valid)),
                    Hand(w, back, InPool))
  {
    hide Name, Owned, SlotsOk, Issued, Assign, Names, ReturnAll, ReturnFirst, AppendedOk, MinersOk, PipeOk, LedgerOk;
    ReturnFromValidator(sys, s, w, v, back);
    AppendedKeeps(s.ledger, s.validators, v, Reporting(s.validators[v].m, valid));
  }

  lemma CheckPoolKeeps(sys: System, s: State, w: Books, v: nat)
    requires Custody(sys, s, w) && Enabled(sys, s, CheckPool(v))
    ensures Custody(sys, Do(sys, s, CheckPool(v)), NextBooks(sys, s, w, CheckPool(v)))
  {
    var m, t := s.validators[v].m, Do(sys, s, CheckPool(v));
    var ts := m.block.transactions;
    hide Name, Custody, Assign, Names, ReturnFirst, FoundPrefix, Revived;
    if Check(s.pool, ts).1 {
      ValidatorMoves(sys, s, w, v, Checked(m));
      CustodyFrame(sys, SetValidator(s, v, Checked(m)), t, w);
    } else {
      var back := ts[..FoundPrefix(s.pool, ts)];
      ReturningKeeps(sys, s, w, v, back, false);
      CustodyFrame(sys, SetValidator(s.(pool := ReturnFirst(s.pool, back)), v, Reporting(m, false)), t, Hand(w, back, InPool));
    }
  }

  lemma GiveBackRefusedKeeps(sys: System, s: State, w: Books, v: nat)
    requires Custody(sys, s, w) && Enabled(sys, s, GiveBackRefused(v))
    ensures Custody(sys, Do(sys, s, GiveBackRefused(v)), NextBooks(sys, s, w, GiveBackRefused(v)))
  {
    var m, t := s.validators[v].m, Do(sys, s, GiveBackRefused(v));
    var ts := m.block.transactions;
    hide Name, Custody, Assign, Names, ReturnFirst, Revived, PercentFull;
    ReturningKeeps(sys, s, w, v, ts, true);
    CustodyFrame(sys, SetValidator(s.(pool := ReturnFirst(s.pool, ts)), v, Reporting(m, true)), t, Hand(w, ts, InPool));
  }

  lemma RemoveKeepsSlots(pool: seq<Slot>, o: map<Bytes, Owner>, ts: seq<Transaction>)
    requires SlotsOk(pool, o) && AllNamed(ts)
    ensures SlotsOk(PoolSpec.Remove(pool, ts), o)
  {
    hide Name, PoolSpec.Remove;
    forall j | 0 <= j < |pool|
      ensures Name(PoolSpec.Remove(pool, ts)[j].tx) == Name(pool[j].tx)
      ensures pool[j].empty ==> PoolSpec.Remove(pool, ts)[j].empty
    {
      RemoveAt(pool, ts, j);
    }
    SlotsShrink(pool, PoolSpec.Remove(pool, ts), o);
  }

  /** A block that is being removed from the pool has its owner in the ledger. */
  lemma AppendedIsOwned(sys: System, s: State, w: Books, v: nat) returns (b: nat)
    requires Custody(sys, s, w) && ValidatorAt(s, v) && s.validators[v].Appended?
    ensures b < |s.ledger|
    ensures Owned(w.owner, sys.config.perBlock, s.validators[v].m.block.transactions, InLedger(b))
  {
    hide Owned, SlotsOk, Issued;
    b :| 0 <= b < |s.ledger| && s.ledger[b].transactions == s.validators[v].m.block.transactions;
  }

  /** A miner's private step: it holds what it held before, or nothing. */
  lemma MinerMoves(sys: System, s: State, w: Books, i: nat, m: Miner)
    requires Custody(sys, s, w) && MinerAt(s, i)
    requires Holds(m) ==> Holds(s.miners[i]) && Held(m) == Held(s.miners[i])
    ensures Custody(sys, SetMiner(s, i, m), w)
  {
    hide Owned, SlotsOk, Issued;
  }

  /** A validator's private step: it carries what it carried before, or nothing. */
  lemma ValidatorMoves(sys: System, s: State, w: Books, v: nat, x: Validator)
    requires Custody(sys, s, w) && ValidatorAt(s, v) && !x.Appended?
    requires Carries(x) ==> Carries(s.validators[v]) && x.m == s.validators[v].m
    ensures Custody(sys, SetValidator(s, v, x), w)
  {
    hide Owned, SlotsOk, Issued;
    var y := s.validators[v := x];
    forall u | 0 <= u < |y| && y[u].Appended?
      ensures exists b :: 0 <= b < |s.ledger| && s.ledger[b].transactions == y[u].m.block.transactions
    {
      assert s.validators[u].Appended?;
    }
  }

  /** Custody does not mention the other parts of the state. */
  lemma CustodyFrame(sys: System, s: State, t: State, w: Books)
    requires Custody(sys, s, w)
    requires t.pool == s.pool && t.counters == s.counters && t.ledger == s.ledger && t.pipe == s.pipe
    requires t.miners == s.miners && t.validators == s.validators
    ensures Custody(sys, t, w)
  {
    hide Owned, SlotsOk, Issued;
  }

  lemma RemoveKeeps(sys: System, s: State, w: Books, v: nat)
    requires Custody(sys, s, w) && Enabled(sys, s, Step.Remove(v))
    ensures Custody(sys, Do(sys, s, Step.Remove(v)), w)
  {
    var m := s.validators[v].m;
    var b := AppendedIsOwned(sys, s, w, v);
    assert AllNamed(m.block.transactions) by {
      hide Name;
    }
    hide Name, Owned, SlotsOk, Issued, PoolSpec.Remove, PercentFull, AllNamed;
    RemoveKeepsSlots(s.pool, w.owner, m.block.transactions);
    ValidatorMoves(sys, s.(pool := PoolSpec.Remove(s.pool, m.block.transactions)), w, v, Reporting(m, true));
    CustodyFrame(sys, SetValidator(s.(pool := PoolSpec.Remove(s.pool, m.block.transactions)), v, Reporting(m, true)),
                 Do(sys, s, Step.Remove(v)), w);
  }

  lemma MinerStep(sys: System, s: State, w: Books, step: Step)
    requires Custody(sys, s, w) && Enabled(sys, s, step)
    requires step.Wake? || step.ReadTip? || step.Mine? || step.MineFails? || step.SendFails?
    ensures Custody(sys, Do(sys, s, step), w)
  {
    hide Name, Custody, Accepts, Finds, Fails, Tip, NewBlock;
    var t := Do(sys, s, step);
    DraftHolds(s, step);
    MinerMoves(sys, s, w, step.i, t.miners[step.i]);
    CustodyFrame(sys, SetMiner(s, step.i, t.miners[step.i]), t, w);
  }

  lemma DraftHolds(s: State, step: Step)
    ensures step.Mine? && MinerAt(s, step.i) && s.miners[step.i].Reserved? ==>
      && Draft(s, step.i, step.now).transactions == s.miners[step.i].transactions
      && Draft(s, step.i, step.retry).transactions == s.miners[step.i].transactions
  {
  }

  lemma ValidatorStep(sys: System, s: State, w: Books, step: Step)
    requires Custody(sys, s, w) && Enabled(sys, s, step)
    requires step.CheckLink? || step.CheckCapacity? || step.Report? || step.Exit?
    ensures Custody(sys, Do(sys, s, step), w)
  {
    hide Name, Custody, Accepts, Tip, Links, RewardSum;
    var t := Do(sys, s, step);
    ValidatorMoves(sys, s, w, step.v, t.validators[step.v]);
    CustodyFrame(sys, SetValidator(s, step.v, t.validators[step.v]), t, w);
  }

  lemma OtherStep(sys: System, s: State, w: Books, step: Step)
    requires Custody(sys, s, w) && Enabled(sys, s, step)
    requires step.Post? || step.Collect? || step.Age? || step.Fork?
    ensures Custody(sys, Do(sys, s, step), w)
  {
    hide Name, Owned, SlotsOk, Issued, AgeAll;
    if step.Age? {
      AgeKeepsNames(s.pool);
      SlotsShrink(s.pool, AgeAll(s.pool), w.owner);
    } else if step.Fork? {
      var y := s.validators + [Ready];
      assert forall u :: 0 <= u < |s.validators| ==> y[u] == s.validators[u];
    }
  }

  /** Every step keeps every transaction with exactly the holder the books name. */
  lemma CustodyStep(sys: System, s: State, w: Books, step: Step)
    requires Custody(sys, s, w) && Enabled(sys, s, step)
    ensures Custody(sys, Do(sys, s, step), NextBooks(sys, s, w, step))
  {
    hide Enabled, Possible, Do, Custody;
    match step
    case Generate(pid, d) => GenerateKeeps(sys, s, w, pid, d);
    case Select(i) => SelectKeeps(sys, s, w, i);
    case Send(i) => SendKeeps(sys, s, w, i);
    case GiveBack(i) => GiveBackKeeps(sys, s, w, i);
    case Receive(v) => ReceiveKeeps(sys, s, w, v);
    case CheckPool(v) => CheckPoolKeeps(sys, s, w, v);
    case GiveBackRefused(v) => GiveBackRefusedKeeps(sys, s, w, v);
    case Append(v) => AppendKeeps(sys, s, w, v);
    case Remove(v) => RemoveKeeps(sys, s, w, v);
    case Wake(_) => MinerStep(sys, s, w, step);
    case ReadTip(_) => MinerStep(sys, s, w, step);
    case Mine(_, _, _, _) => MinerStep(sys, s, w, step);
    case MineFails(_, _, _) => MinerStep(sys, s, w, step);
    case SendFails(_) => MinerStep(sys, s, w, step);
    case CheckLink(_) => ValidatorStep(sys, s, w, step);
    case CheckCapacity(_) => ValidatorStep(sys, s, w, step);
    case Report(_, _) => ValidatorStep(sys, s, w, step);
    case Exit(_) => ValidatorStep(sys, s, w, step);
    case Post => OtherStep(sys, s, w, step);
    case Collect => OtherStep(sys, s, w, step);
    case Age(_) => OtherStep(sys, s, w, step);
    case Fork => OtherStep(sys, s, w, step);
  }
}
