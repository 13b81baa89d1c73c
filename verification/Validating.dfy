/** One iteration of a validator's loop (validator.c): receive a block, check it, append it or
    refuse it, and report. An uninterrupted iteration is a run of the protocol's steps. */
module Validating {
  import opened Bytes
  import opened Data
  import opened Serialization
  import opened Pow
  import opened Chain
  import opened PoolSpec
  import opened Pool
  import opened SharedLedger
  import opened Pipe
  import opened Statistics
  import opened Sums
  import opened Protocol
  import opened Mining
  import opened ProtocolAgeing
  import opened ProtocolSafety
  import opened ProtocolShape

  /** Proof of work and previous hash. */
  ghost predicate ExtendsTip(h: HashFn, ledger: seq<Block>, b: Block) {
    Accepts(h, b) && Links(b, Tip(Hasher(h), ledger))
  }

  predicate AllFound(pool: seq<Slot>, ts: seq<Transaction>) {
    forall i :: 0 <= i < |ts| ==> Name(ts[i]) != [] && HasSlot(pool, Name(ts[i]))
  }

  /** validate_block. It accepts exactly the blocks with a good nonce, the tip's hash, and a slot,
      reserved or not, for each transaction; only a block refused for its transactions has any
      of them given back. */
  method ValidateBlock(h: HashFn, b: Block, ledger: Ledger, pool: TransactionPool) returns (valid: bool)
    requires ledger.Valid() && ledger.mem as object != pool.slots as object
    modifies pool.slots
    ensures valid <==> ExtendsTip(h, ledger.Blocks(), b) && AllFound(old(pool.slots[..]), b.transactions)
    ensures ledger.Valid() && ledger.Blocks() == old(ledger.Blocks())
    ensures pool.slots[..] ==
      if ExtendsTip(h, ledger.Blocks(), b) then Check(old(pool.slots[..]), b.transactions).0 else old(pool.slots[..])
  {
    hide Accepts, Check, Name, HasSlot, Tip, Hasher, Contents, EntriesOk, CString;
    CheckAcceptsIff(pool.slots[..], b.transactions);
    var nonceOk := VerifyNonce(h, b);
    if !nonceOk {
      return false;
    }
    var lastHash := ledger.TipHash(h);
    if CString(b.previousHash) != lastHash {
      return false;
    }
    valid := pool.CheckTransactions(b.transactions);
  }

  /** send_statistics, up to the message: only a valid block's rewards are summed. */
  method MakeStatistics(minerId: int, valid: bool, ts: seq<Transaction>, elapsed: real) returns (msg: StatMsg)
    ensures msg == StatMsg(minerId, valid, elapsed, if valid then RewardSum(ts) else 0)
    ensures msg.minerId == minerId && msg.valid == valid && msg.elapsed == elapsed
    ensures msg.rewards == if valid then Sum(ts, (t: Transaction) => t.reward) else 0
  {
    var totalRewards := 0;
    if valid {
      for i := 0 to |ts|
        invariant totalRewards == RewardSum(ts[..i])
      {
        assert ts[..i + 1][..i] == ts[..i];
        totalRewards := totalRewards + ts[i].reward;
      }
      assert ts[..|ts|] == ts;
      RewardSumMeans(ts);
    }
    return StatMsg(minerId, valid, elapsed, totalRewards);
  }

  datatype Handled = Handled(pool: seq<Slot>, ledger: seq<Block>, valid: bool)

  /** What becomes of a received block. A block that was found valid but no longer fits is still
      reported as valid. */
  ghost function Handle(h: HashFn, maxBlocks: nat, pool: seq<Slot>, ledger: seq<Block>, b: Block): Handled {
    if !ExtendsTip(h, ledger, b) then Handled(pool, ledger, false)
    else
      var (p, ok) := Check(pool, b.transactions);
      if !ok then Handled(p, ledger, false)
      else if |ledger| < maxBlocks then Handled(PoolSpec.Remove(pool, b.transactions), ledger + [b], true)
      else Handled(ReturnFirst(pool, b.transactions), ledger, true)
  }

  /** The rest of an iteration once a message has been read. `padding` and `pointer` are the bytes
      of the received struct that no field accounts for. */
  method HandleBlock(h: HashFn, m: Message, pool: TransactionPool, ledger: Ledger, elapsed: real,
                     padding: Bytes, pointer: nat) returns (msg: StatMsg)
    requires ledger.Valid() && pool.Valid() && ledger.mem as object != pool.slots as object
    requires Sized(m.block) && |m.block.transactions| == ledger.perBlock && |padding| == 7
    modifies pool.slots, pool`occupancy, ledger.mem, ledger`numBlocks
    ensures ledger.Valid()
    ensures var r := Handle(h, ledger.maxBlocks, old(pool.slots[..]), old(ledger.Blocks()), m.block);
            && pool.slots[..] == r.pool && ledger.Blocks() == r.ledger
            && msg == StatMsg(m.minerId, r.valid, elapsed, if r.valid then RewardSum(m.block.transactions) else 0)
            && pool.occupancy == if r.valid then Occupancy(pool.slots[..]) else old(pool.occupancy)
  {
    hide Accepts, Name, Check, PoolSpec.Remove, ReturnFirst, ExtendsTip, AllFound, Contents, EntriesOk, RewardSum, Sized;
    ghost var before, blocks := pool.slots[..], ledger.Blocks();
    CheckMeansAllFound(before, m.block.transactions);
    var valid := ValidateBlock(h, m.block, ledger, pool);
    assert valid ==> pool.slots[..] == before;
    if valid {
      var r := ledger.AddBlock(m.block, padding, pointer);
      assert pool.slots[..] == before;
      if r == 0 {
        pool.RemoveTransactions(m.block.transactions);
      } else {
        pool.ReturnRefused(m.block.transactions);
      }
    }
    msg := MakeStatistics(m.minerId, valid, m.block.transactions, elapsed);
  }

  lemma CheckMeansAllFound(pool: seq<Slot>, ts: seq<Transaction>)
    ensures Check(pool, ts).1 <==> AllFound(pool, ts)
  {
    CheckAcceptsIff(pool, ts);
  }

  /** Handling a block the right way round keeps a chain a chain: with no other validator in
      between, the tip that was checked is the tip that is extended. */
  lemma HandleKeepsChain(h: HashFn, maxBlocks: nat, pool: seq<Slot>, ledger: seq<Block>, b: Block)
    requires IsChain(Hasher(h), ledger) && |ledger| <= maxBlocks
    ensures IsChain(Hasher(h), Handle(h, maxBlocks, pool, ledger, b).ledger)
    ensures |Handle(h, maxBlocks, pool, ledger, b).ledger| <= maxBlocks
  {
    hide Accepts, IsChain, Links, Tip, Hasher, Check, PoolSpec.Remove, ReturnFirst;
    ChainAppend(Hasher(h), ledger, b);
  }

  /** The reserved slots, freed for good. */
  function Spend(pool: seq<Slot>, k: nat): (r: seq<Slot>) {
    seq(|pool|, j requires 0 <= j < |pool| =>
      if j in Picked(pool, k, |pool|) then MakeFree(pool[j]) else pool[j])
  }

  lemma ReservedAreFound(pool: seq<Slot>, k: nat)
    requires Reserve(pool, k).1.Some?
    requires forall j :: 0 <= j < |pool| && !pool[j].empty ==> Name(pool[j].tx) != []
    ensures AllFound(Reserve(pool, k).0, Reserve(pool, k).1.value) && AllNamed(Reserve(pool, k).1.value)
  {
    hide Name;
    var p := Picked(pool, k, |pool|);
    var ts := Copies(pool, p);
    forall i | 0 <= i < |ts| ensures Name(ts[i]) != [] && HasSlot(Mark(pool, p), Name(ts[i])) {
      assert !pool[p[i]].empty && Mark(pool, p)[p[i]].tx == ts[i];
    }
  }

  lemma RemoveReservedIsSpend(pool: seq<Slot>, k: nat)
    requires UniqueNames(pool) && Reserve(pool, k).1.Some? && AllNamed(Reserve(pool, k).1.value)
    ensures PoolSpec.Remove(Reserve(pool, k).0, Reserve(pool, k).1.value) == Spend(pool, k)
  {
    hide Name, Picked, PoolSpec.Remove;
    var p := Picked(pool, k, |pool|);
    var m, ts := Mark(pool, p), Copies(pool, p);
    RemoveIsMatching(m, ts);
    forall j | 0 <= j < |pool| ensures PoolSpec.Remove(m, ts)[j] == Spend(pool, k)[j] {
      CopiesNameTheirSlots(pool, p, j);
      assert m[j].tx == pool[j].tx;
      assert UpdateMatching(m, Names(ts), MakeFree)[j] == if Name(m[j].tx) in Names(ts) then MakeFree(m[j]) else m[j];
      assert MakeFree(m[j]) == MakeFree(pool[j]);
    }
  }

  /** From one end of the system to the other: a block that a miner sends, handled before anything else
      happens, is always found valid. With room in the ledger it is appended and its slots are spent;
      with none, the pool is exactly what it was before the miner began. */
  lemma UncontendedBlockIsAccepted(h: HashFn, k: nat, maxBlocks: nat, minerId: nat, ledger: seq<Block>, now: int, retry: int,
                                   before: seq<Slot>, turn: Turn, after: seq<Slot>)
    requires TurnOk(h, k, minerId, ledger, now, retry, true, before, turn, after) && turn.Sent?
    requires UniqueNames(before)
    requires forall j :: 0 <= j < |before| && !before[j].empty ==> Name(before[j].tx) != []
    ensures Handle(h, maxBlocks, after, ledger, turn.block) ==
      if |ledger| < maxBlocks then Handled(Spend(before, k), ledger + [turn.block], true)
      else Handled(before, ledger, true)
  {
    hide Name, Accepts, Reserve, IsMined, NewBlock, Links, Tip, Hasher, Check, PoolSpec.Remove, ReturnFirst, Spend,
         UniqueNames, AllNamed, AllFound, Terminated;
    var ts := Reserve(before, k).1.value;
    MinedBlockIsGood(h, minerId, |ledger|, Tip(Hasher(h), ledger), now, retry, ts, turn.block);
    ReservedAreFound(before, k);
    CheckMeansAllFound(after, ts);
    RemoveReservedIsSpend(before, k);
    ReturnUndoesReserve(before, k);
  }

  // ----- the whole iteration --------------------------------------------------------------------------

  lemma DecodedIsSized(s: Bytes, k: nat)
    requires IsInt32(k)
    ensures match Decode(s, k) case None => true case Some(r) => Sized(r.0.block) && 0 < |r.0.block.transactions| <= k
  {
    hide ToInt32, ToInt64, ToUint32, ParseTxs;
    if |s| >= PREFIX_SIZE {
      DecodeFields(s, k);
    }
  }

  /** One pass of the loop from the first read() on. It takes from the pipe exactly what ReceiveFrom says;
      with a message it treats that message, without one pool and ledger stay as they are. In the
      program every message carries perBlock transactions; the code that receives it only checks for
      at most that many. */
  method Iterate(h: HashFn, pipe: PipeEnd, pool: TransactionPool, ledger: Ledger, elapsed: real,
                 padding: Bytes, pointer: nat) returns (msg: Option<StatMsg>)
    requires ledger.Valid() && pool.Valid() && ledger.mem as object != pool.slots as object
    requires IsInt32(ledger.perBlock) && |padding| == 7
    requires var (got, _) := ReceiveFrom(pipe.Now(), ledger.perBlock);
             got.Some? ==> |got.value.block.transactions| == ledger.perBlock
    modifies pipe, pool.slots, pool`occupancy, ledger.mem, ledger`numBlocks
    ensures ledger.Valid()
    ensures var (got, rest) := ReceiveFrom(old(pipe.Now()), ledger.perBlock);
            && pipe.Now() == rest && (msg.Some? <==> got.Some?)
            && match got
               case None =>
                 && pool.slots[..] == old(pool.slots[..]) && pool.occupancy == old(pool.occupancy)
                 && ledger.Blocks() == old(ledger.Blocks())
               case Some(m) =>
                 var r := Handle(h, ledger.maxBlocks, old(pool.slots[..]), old(ledger.Blocks()), m.block);
                 && pool.slots[..] == r.pool && ledger.Blocks() == r.ledger
                 && msg == Some(StatMsg(m.minerId, r.valid, elapsed, if r.valid then RewardSum(m.block.transactions) else 0))
  {
    hide Decode, Handle, Contents, EntriesOk, RewardSum, Sized, ReceiveFrom;
    ReceivedIsDecoded(pipe.Now(), ledger.perBlock);
    DecodedIsSized(pipe.stream, ledger.perBlock);
    var received := pipe.Receive(ledger.perBlock);
    if received.None? {
      return None;
    }
    var sent := HandleBlock(h, received.value, pool, ledger, elapsed, padding, pointer);
    return Some(sent);
  }

  // ----- an iteration is a run ------------------------------------------------------------------------

  function ReportOf(m: Message, valid: bool, elapsed: real): StatMsg {
    StatMsg(m.minerId, valid, elapsed, if valid then RewardSum(m.block.transactions) else 0)
  }

  /** `t` is `s` after a validator with message `m` has come to the end of its iteration. */
  ghost predicate Finished(s: State, t: State, v: nat, pool: seq<Slot>, ledger: seq<Block>, report: StatMsg)
    requires ValidatorAt(s, v)
  {
    t == SetValidator(s.(pool := pool, ledger := ledger, queue := s.queue + [report],
                         occupancy := if report.valid then PercentFull(pool) else s.occupancy,
                         returned := t.returned, accepted := t.accepted, refused := t.refused), v, Ready)
  }

  lemma ReportRun(sys: System, s: State, v: nat, elapsed: real)
    requires ValidatorAt(s, v) && s.validators[v].Reporting?
    ensures Runs(sys, s, [Report(v, elapsed)] + [])
    ensures After(sys, s, [Report(v, elapsed)] + []) ==
      SetValidator(s.(queue := s.queue + [ReportOf(s.validators[v].m, s.validators[v].valid, elapsed)]), v, Ready)
  {
    hide RewardSum;
    FirstStep(sys, s, Report(v, elapsed), []);
  }

  lemma CheckedRun(sys: System, s: State, v: nat, elapsed: real) returns (steps: seq<Step>)
    requires ValidatorAt(s, v) && s.validators[v].Checked?
    ensures Runs(sys, s, steps)
    ensures var m := s.validators[v].m;
            var fits := |s.ledger| < sys.config.maxBlocks;
            Finished(s, After(sys, s, steps), v,
                     if fits then PoolSpec.Remove(s.pool, m.block.transactions) else ReturnFirst(s.pool, m.block.transactions),
                     if fits then s.ledger + [m.block] else s.ledger, ReportOf(m, true, elapsed))
  {
    hide RewardSum, PoolSpec.Remove, ReturnFirst, PercentFull, Revived;
    var t := Do(sys, s, CheckCapacity(v));
    if |s.ledger| < sys.config.maxBlocks {
      var u := Do(sys, t, Append(v));
      var x := Do(sys, u, Step.Remove(v));
      ReportRun(sys, x, v, elapsed);
      FirstStep(sys, u, Step.Remove(v), [Report(v, elapsed)] + []);
      FirstStep(sys, t, Append(v), [Step.Remove(v)] + ([Report(v, elapsed)] + []));
      steps := [CheckCapacity(v)] + ([Append(v)] + ([Step.Remove(v)] + ([Report(v, elapsed)] + [])));
      FirstStep(sys, s, CheckCapacity(v), [Append(v)] + ([Step.Remove(v)] + ([Report(v, elapsed)] + [])));
    } else {
      var u := Do(sys, t, GiveBackRefused(v));
      ReportRun(sys, u, v, elapsed);
      FirstStep(sys, t, GiveBackRefused(v), [Report(v, elapsed)] + []);
      steps := [CheckCapacity(v)] + ([GiveBackRefused(v)] + ([Report(v, elapsed)] + []));
      FirstStep(sys, s, CheckCapacity(v), [GiveBackRefused(v)] + ([Report(v, elapsed)] + []));
    }
  }

  lemma ReceivedRun(sys: System, s: State, v: nat, elapsed: real) returns (steps: seq<Step>)
    requires ValidatorAt(s, v) && s.validators[v].Received?
    ensures Runs(sys, s, steps)
    ensures var m := s.validators[v].m;
            var r := Handle(sys.h, sys.config.maxBlocks, s.pool, s.ledger, m.block);
            Finished(s, After(sys, s, steps), v, r.pool, r.ledger, ReportOf(m, r.valid, elapsed))
  {
    hide RewardSum, PoolSpec.Remove, ReturnFirst, PercentFull, Revived, Accepts, Links, Tip, Hasher, Check;
    var t := Do(sys, s, CheckLink(v));
    if !t.validators[v].Linked? {
      ReportRun(sys, t, v, elapsed);
      steps := [CheckLink(v)] + ([Report(v, elapsed)] + []);
      FirstStep(sys, s, CheckLink(v), [Report(v, elapsed)] + []);
    } else {
      var u := Do(sys, t, CheckPool(v));
      if u.validators[v].Checked? {
        var rest := CheckedRun(sys, u, v, elapsed);
        steps := [CheckLink(v)] + ([CheckPool(v)] + rest);
        FirstStep(sys, t, CheckPool(v), rest);
        FirstStep(sys, s, CheckLink(v), [CheckPool(v)] + rest);
      } else {
        ReportRun(sys, u, v, elapsed);
        steps := [CheckLink(v)] + ([CheckPool(v)] + ([Report(v, elapsed)] + []));
        FirstStep(sys, t, CheckPool(v), [Report(v, elapsed)] + []);
        FirstStep(sys, s, CheckLink(v), [CheckPool(v)] + ([Report(v, elapsed)] + []));
      }
    }
  }

  /** Every iteration that nothing interrupts is a run of the protocol, with the effects that
      HandleBlock is proved to have. */
  lemma IterationIsRun(sys: System, s: State, v: nat, elapsed: real) returns (steps: seq<Step>)
    requires ValidatorAt(s, v) && s.validators[v].Ready? && s.pipe != []
    requires 0 < |s.pipe[0].block.transactions| <= sys.config.perBlock
    ensures Runs(sys, s, steps)
    ensures var m := s.pipe[0];
            var r := Handle(sys.h, sys.config.maxBlocks, s.pool, s.ledger, m.block);
            Finished(s.(pipe := s.pipe[1..]), After(sys, s, steps), v, r.pool, r.ledger, ReportOf(m, r.valid, elapsed))
  {
    hide RewardSum, Handle;
    var rest := ReceivedRun(sys, Do(sys, s, Receive(v)), v, elapsed);
    steps := [Receive(v)] + rest;
    FirstStep(sys, s, Receive(v), rest);
  }

  /** In every run the bytes in the pipe are the ones Iterate expects: while messages are queued, what
      it decodes is the first of them, with exactly perBlock transactions. */
  lemma StreamIsReady(sys: System, s: State)
    requires Reachable(sys, s) && s.pipe != []
    requires Sized(s.pipe[0].block) && IsInt32(s.pipe[0].minerId)
    ensures Decode(EncodeAll(s.pipe), sys.config.perBlock) == Some((s.pipe[0], EncodeAll(s.pipe[1..])))
    ensures |s.pipe[0].block.transactions| == sys.config.perBlock > 0
  {
    hide Name, Accepts, Reachable, Decode, Encode, Sized, Terminated, IsTree, IsChain;
    assert InFlight(s, s.pipe[0].block.transactions);
    InFlightIsReserved(sys, s, s.pipe[0].block.transactions);
    PoolIsSound(sys, s);
    SoundAlways(sys, s);
    assert Proper(sys, s.pipe[0].block);
    DecodeInvertsEncode(s.pipe[0], EncodeAll(s.pipe[1..]), sys.config.perBlock);
  }
}
