/** One turn of a miner thread's loop (miner.c): read the tip, reserve transactions, search for a
    nonce with one retry, send the block or give the transactions back. An uninterrupted turn is a
    run of the protocol's steps. */
module Mining {
  import opened Bytes
  import opened Data
  import opened Pow
  import opened Chain
  import opened PoolSpec
  import opened Pool
  import opened SharedLedger
  import opened Pipe
  import opened Protocol
  import opened TxIds

  method CreateBlock(transactions: seq<Transaction>, previous: HexHash, minerId: nat, blockId: nat, now: int)
      returns (block: TransactionBlock)
    ensures fresh(block) && block.Value() == NewBlock(minerId, blockId, previous, now, transactions)
    ensures Terminated(block.Value()) && Links(block.Value(), previous)
    ensures block.transactions == transactions && block.timestamp == now && block.nonce == 0
    ensures CString(block.previousHash) == previous
    ensures |Dec(minerId)| + |Dec(blockId)| <= 56 ==>
      CString(block.txbId) == Ascii("BLOCK-") + Dec(minerId) + Ascii("-") + Dec(blockId)
  {
    if |Dec(minerId)| + |Dec(blockId)| <= 56 {
      BlockIdText(minerId, blockId);
    }
    block := new TransactionBlock(Protocol.BlockIdField(minerId, blockId), InField(previous), now, transactions);
  }

  /** `b` is what the search leaves behind: the first draft with its least nonce, or, when no nonce
      serves that one, the second draft with its own. */
  ghost predicate IsMined(h: HashFn, first: Block, second: Block, b: Block) {
    || (Finds(h, first, b.nonce) && b == first.(nonce := b.nonce))
    || (Fails(h, first) && Finds(h, second, b.nonce) && b == second.(nonce := b.nonce))
  }

  /** Two searches on one block object; `retry` is the clock at the second. The first search's
      last nonce does not leak into the second. */
  method MineBlock(h: HashFn, block: TransactionBlock, retry: int) returns (mined: bool)
    modifies block`nonce, block`timestamp
    ensures mined <==> !(Fails(h, old(block.Value())) && Fails(h, old(block.Value()).(timestamp := retry)))
    ensures mined ==> IsMined(h, old(block.Value()), old(block.Value()).(timestamp := retry), block.Value())
    ensures mined ==> Accepts(h, block.Value())
    ensures block.Value() == old(block.Value()).(nonce := block.nonce, timestamp := block.timestamp)
  {
    hide Accepts;
    ghost var first := block.Value();
    var result := block.ProofOfWork(h);
    if result.error {
      block.timestamp := retry;
      ghost var second := block.Value();
      NonceIsReset(h, first.(timestamp := retry), block.nonce);
      result := block.ProofOfWork(h);
      assert second.(nonce := block.nonce) == first.(timestamp := retry).(nonce := block.nonce);
    }
    mined := !result.error;
    assert block.Value().(nonce := block.nonce) == block.Value();
  }

  /** The search overwrites the nonce it starts with. */
  lemma NonceIsReset(h: HashFn, b: Block, nonce: uint32)
    ensures Fails(h, b.(nonce := nonce)) <==> Fails(h, b)
    ensures forall n: nat :: Finds(h, b.(nonce := nonce), n) <==> Finds(h, b, n)
  {
    hide Accepts;
    var c := b.(nonce := nonce);
    forall n: nat ensures AcceptsWith(h, c, n) <==> AcceptsWith(h, b, n) {
      assert n < POW_MAX_OPS ==> c.(nonce := n) == b.(nonce := n);
    }
  }

  datatype Turn = Idle | Sent(block: Block) | GaveBack

  function SentBy(minerId: nat, turn: Turn): seq<Message> {
    if turn.Sent? then [Message(minerId, turn.block)] else []
  }

  /** What one turn may do to a pool that looked like `before` and now looks like `after`. */
  ghost predicate TurnOk(h: HashFn, k: nat, minerId: nat, ledger: seq<Block>, now: int, retry: int, sendWorks: bool,
                         before: seq<Slot>, turn: Turn, after: seq<Slot>) {
    var (reserved, got) := Reserve(before, k);
    match got
    case None => turn == Idle && after == before
    case Some(ts) =>
      var tip := Tip(Hasher(h), ledger);
      var first, second := NewBlock(minerId, |ledger|, tip, now, ts), NewBlock(minerId, |ledger|, tip, retry, ts);
      match turn
      case Idle => false
      case GaveBack => after == ReturnAll(reserved, ts) && (sendWorks ==> Fails(h, first) && Fails(h, second))
      case Sent(b) => sendWorks && after == reserved && IsMined(h, first, second, b)
  }

  /** The loop body between two waits. `sendWorks` says whether the pipe could be opened and
      written. */
  method TakeTurn(h: HashFn, minerId: nat, pool: TransactionPool, ledger: Ledger, pipe: PipeEnd,
                  now: int, retry: int, sendWorks: bool) returns (turn: Turn)
    requires ledger.Valid() && ledger.mem as object != pool.slots as object
    modifies pool.slots, pipe`stream
    ensures ledger.Valid() && ledger.Blocks() == old(ledger.Blocks())
    ensures TurnOk(h, ledger.perBlock, minerId, ledger.Blocks(), now, retry, sendWorks,
                   old(pool.slots[..]), turn, pool.slots[..])
    ensures pipe.stream == old(pipe.stream) + EncodeAll(SentBy(minerId, turn))
  {
    hide Accepts, Reserve, ReturnAll, Hasher, Tip, HashHex, Encode, Contents, EntriesOk, Links, Finds, Fails, Dec, Ascii,
         CString, Protocol.BlockIdField;
    var previous := ledger.TipHash(h);
    var blockId := ledger.numBlocks;
    var selected := pool.SelectTransactions(ledger.perBlock);
    if selected.None? {
      return Idle;
    }
    var block := CreateBlock(selected.value, previous, minerId, blockId, now);
    RetryIsNewBlock(minerId, blockId, previous, now, retry, selected.value);
    hide NewBlock, Terminated;
    var mined := MineBlock(h, block, retry);
    if mined && sendWorks {
      var b := Block(block.txbId, block.previousHash, block.timestamp, block.nonce, block.transactions);
      pipe.Send(Message(minerId, b));
      OneMessage(Message(minerId, b));
      return Sent(b);
    }
    pool.ReturnTransactions(selected.value);
    return GaveBack;
  }

  lemma OneMessage(m: Message)
    ensures EncodeAll([m]) == Encode(m)
  {
    hide Encode;
    assert EncodeAll([m]) == Encode(m) + EncodeAll([]);
  }

  lemma RetryIsNewBlock(minerId: nat, blockId: nat, previous: HexHash, now: int, retry: int, ts: seq<Transaction>)
    ensures NewBlock(minerId, blockId, previous, now, ts).(timestamp := retry) == NewBlock(minerId, blockId, previous, retry, ts)
  {
  }

  /** Nothing is gained or lost by a turn that gives its transactions back: the pool is as it was. */
  lemma GivingBackRestoresPool(h: HashFn, k: nat, minerId: nat, ledger: seq<Block>, now: int, retry: int, sendWorks: bool,
                               before: seq<Slot>, turn: Turn, after: seq<Slot>)
    requires TurnOk(h, k, minerId, ledger, now, retry, sendWorks, before, turn, after)
    requires UniqueNames(before)
    requires forall j :: 0 <= j < |before| && !before[j].empty ==> Name(before[j].tx) != []
    ensures !turn.Sent? ==> after == before
  {
    hide Name, Reserve, ReturnAll, Fails, IsMined, NewBlock, UniqueNames;
    if turn.GaveBack? {
      ReturnUndoesReserve(before, k);
    }
  }

  /** A generator's identifier never begins like a block's, so that an append beyond the capacity always
      changes block 0. */
  lemma OverflowAlwaysCorrupts(m: Bytes, maxBlocks: nat, k: nat, b: Block, padding: Bytes, pointer: nat,
                               minerId: nat, blockId: nat, pid: nat, counter: nat)
    requires FitsInt(maxBlocks + 1, k) && |m| == SegmentSize(maxBlocks, k) && maxBlocks > 0 && k > 0 && |padding| == 7
    requires b.txbId == Protocol.BlockIdField(minerId, blockId)
    requires Name(BlockAt(m, maxBlocks, k, 0).transactions[0]) == IdText(pid, counter)
    ensures BlockAt(Overflow(m, maxBlocks, k, maxBlocks, b, padding, pointer), maxBlocks, k, 0) != BlockAt(m, maxBlocks, k, 0)
  {
    hide Overflow, FitsInt, SegmentSize, EntryBytes, TxsAt, ToInt32, ToInt64, ToUint32;
    FitsFewer(maxBlocks, k);
    Inside(maxBlocks, k, 0);
    OverflowHitsBlockZero(m, maxBlocks, k, b, padding, pointer);
    IdsBeginDifferently(minerId, blockId, pid, counter);
    NameIsPrefix(BlockAt(m, maxBlocks, k, 0).transactions[0]);
  }

  lemma IdsBeginDifferently(minerId: nat, blockId: nat, pid: nat, counter: nat)
    ensures Protocol.BlockIdField(minerId, blockId)[0] != IdText(pid, counter)[0]
  {
    hide Dec;
    assert Ascii("BLOCK-")[0] == 'B' as int && Ascii("TX-")[0] == 'T' as int;
  }

  lemma NameIsPrefix(t: Transaction)
    ensures Name(t) != [] ==> t.txId[0] == Name(t)[0]
  {
  }

  /** What a search from a fresh block leaves behind passes the validator's tests on the block itself. */
  lemma MinedBlockIsGood(h: HashFn, minerId: nat, blockId: nat, tip: HexHash, now: int, retry: int,
                         ts: seq<Transaction>, b: Block)
    requires IsMined(h, NewBlock(minerId, blockId, tip, now, ts), NewBlock(minerId, blockId, tip, retry, ts), b)
    ensures Accepts(h, b) && Links(b, tip) && Terminated(b) && b.transactions == ts
    ensures b.timestamp == now || b.timestamp == retry
  {
    hide Accepts;
  }

  /** A mined block, from either search, arrives at the other end of the pipe unchanged, in spite of
      the terminators the validator forces, and still passes verify_nonce. */
  lemma MinedBlockArrives(h: HashFn, minerId: nat, blockId: nat, tip: HexHash, now: int, retry: int,
                          ts: seq<Transaction>, b: Block, rest: Bytes, k: nat)
    requires IsMined(h, NewBlock(minerId, blockId, tip, now, ts), NewBlock(minerId, blockId, tip, retry, ts), b)
    requires IsInt32(minerId) && IsInt64(now) && IsInt64(retry) && 0 < |ts| <= k && IsInt32(k)
    requires forall i :: 0 <= i < |ts| ==> SizedTx(ts[i])
    ensures Decode(Encode(Message(minerId, b)) + rest, k) == Some((Message(minerId, b), rest))
    ensures Accepts(h, b)
  {
    hide Accepts, Decode, Encode, IsMined, Terminated, Links, NewBlock, SizedTx;
    MinedBlockIsGood(h, minerId, blockId, tip, now, retry, ts, b);
    DecodeInvertsEncode(Message(minerId, b), rest, k);
  }

  // ----- a turn is a run ----------------------------------------------------------------------------

  /** Once the transactions are reserved: search, then send or give back. */
  lemma MiningRun(sys: System, s: State, i: nat, now: int, retry: int, sendWorks: bool, turn: Turn) returns (steps: seq<Step>)
    requires MinerAt(s, i) && s.miners[i].Reserved? && !turn.Idle?
    requires turn.GaveBack? && sendWorks ==> Fails(sys.h, Draft(s, i, now)) && Fails(sys.h, Draft(s, i, retry))
    requires turn.Sent? ==> IsMined(sys.h, Draft(s, i, now), Draft(s, i, retry), turn.block)
    ensures Runs(sys, s, steps)
    ensures var t := After(sys, s, steps);
            var pool := if turn.Sent? then s.pool else ReturnAll(s.pool, s.miners[i].transactions);
            t == SetMiner(s.(pool := pool, pipe := s.pipe + SentBy(i + 1, turn), returned := t.returned), i, Waiting)
  {
    hide Accepts, NewBlock, Finds, Fails, ReturnAll, Revived;
    var ts := s.miners[i].transactions;
    if turn.Sent? {
      SearchIsDecided(sys.h, Draft(s, i, now));
      var mine := Mine(i, now, retry, turn.block.nonce);
      var t := Do(sys, s, mine);
      assert t.miners[i] == Mined(turn.block);
      steps := [mine] + ([Send(i)] + []);
      FirstStep(sys, t, Send(i), []);
      FirstStep(sys, s, mine, [Send(i)] + []);
    } else if Fails(sys.h, Draft(s, i, now)) && Fails(sys.h, Draft(s, i, retry)) {
      var t := Do(sys, s, MineFails(i, now, retry));
      steps := [MineFails(i, now, retry)] + ([GiveBack(i)] + []);
      FirstStep(sys, t, GiveBack(i), []);
      FirstStep(sys, s, MineFails(i, now, retry), [GiveBack(i)] + []);
    } else {
      var mine := SomeMine(sys, s, i, now, retry);
      var t := Do(sys, s, mine);
      var u := Do(sys, t, SendFails(i));
      assert u.miners[i] == GivingUp(ts);
      steps := [mine] + ([SendFails(i)] + ([GiveBack(i)] + []));
      FirstStep(sys, u, GiveBack(i), []);
      FirstStep(sys, t, SendFails(i), [GiveBack(i)] + []);
      FirstStep(sys, s, mine, [SendFails(i)] + ([GiveBack(i)] + []));
    }
  }

  lemma SomeMine(sys: System, s: State, i: nat, now: int, retry: int) returns (mine: Step)
    requires MinerAt(s, i) && s.miners[i].Reserved?
    requires !(Fails(sys.h, Draft(s, i, now)) && Fails(sys.h, Draft(s, i, retry)))
    ensures mine.Mine? && mine.i == i && Enabled(sys, s, mine)
    ensures Do(sys, s, mine) == SetMiner(s, i, Do(sys, s, mine).miners[i])
    ensures var m := Do(sys, s, mine).miners[i]; m.Mined? && m.block.transactions == s.miners[i].transactions
  {
    SearchIsDecided(sys.h, Draft(s, i, now));
    SearchIsDecided(sys.h, Draft(s, i, retry));
    hide Accepts, Finds, Fails;
    var d := if Fails(sys.h, Draft(s, i, now)) then Draft(s, i, retry) else Draft(s, i, now);
    var n: nat :| Finds(sys.h, d, n);
    NonceFits(sys.h, d, n);
    mine := Mine(i, now, retry, n);
  }

  lemma NonceFits(h: HashFn, b: Block, n: nat)
    requires Finds(h, b, n)
    ensures n < TWO_32
  {
  }

  /** Every turn that nothing interrupts is a run of the protocol: whatever holds in every
      reachable state holds of what the loop body does to the pool and the pipe. */
  lemma TurnIsRun(sys: System, s: State, i: nat, now: int, retry: int, sendWorks: bool, turn: Turn, after: seq<Slot>)
      returns (steps: seq<Step>)
    requires MinerAt(s, i) && s.miners[i].Woken?
    requires TurnOk(sys.h, sys.config.perBlock, i + 1, s.ledger, now, retry, sendWorks, s.pool, turn, after)
    ensures Runs(sys, s, steps)
    ensures var t := After(sys, s, steps);
            t == SetMiner(s.(pool := after, pipe := s.pipe + SentBy(i + 1, turn), returned := t.returned), i, Waiting)
  {
    hide Accepts, NewBlock, Finds, Fails, ReturnAll, Revived, Reserve, Tip, Hasher, IsMined;
    var t := Do(sys, s, ReadTip(i));
    var u := Do(sys, t, Select(i));
    if turn.Idle? {
      steps := [ReadTip(i)] + ([Select(i)] + []);
      FirstStep(sys, t, Select(i), []);
      FirstStep(sys, s, ReadTip(i), [Select(i)] + []);
      assert s.pipe + [] == s.pipe;
    } else {
      var rest := MiningRun(sys, u, i, now, retry, sendWorks, turn);
      steps := [ReadTip(i)] + ([Select(i)] + rest);
      FirstStep(sys, t, Select(i), rest);
      FirstStep(sys, s, ReadTip(i), [Select(i)] + rest);
    }
  }
}
