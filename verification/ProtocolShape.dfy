/** The shape of the ledger over whole runs, and what every block on its way there satisfies. */
module ProtocolShape {
  import opened Bytes
  import opened Data
  import opened PoolSpec
  import opened Pow
  import opened Chain
  import opened Pipe
  import opened Protocol
  import opened ProtocolAgeing
  import opened ProtocolSafety

  /** A block as miners send it. */
  ghost predicate Proper(sys: System, b: Block) {
    Accepts(sys.h, b) && Terminated(b)
  }

  predicate Passed(x: Validator) { x.Linked? || x.Checked? || x.Cleared? }

  ghost predicate PassedOk(sys: System, ledger: seq<Block>, alone: bool, b: Block) {
    && Accepts(sys.h, b)
    && HasParent(Hasher(sys.h), ledger, b)
    && (alone ==> Links(b, Tip(Hasher(sys.h), ledger)))
  }

  ghost predicate MinersProper(sys: System, miners: seq<Miner>) {
    forall i :: 0 <= i < |miners| && miners[i].Mined? ==> Proper(sys, miners[i].block)
  }

  ghost predicate PipeProper(sys: System, pipe: seq<Message>) {
    forall n :: 0 <= n < |pipe| ==> Proper(sys, pipe[n].block)
  }

  ghost predicate ReceivedProper(sys: System, validators: seq<Validator>) {
    forall v :: 0 <= v < |validators| && validators[v].Received? ==> Accepts(sys.h, validators[v].m.block)
  }

  ghost predicate AllPassedOk(sys: System, ledger: seq<Block>, validators: seq<Validator>) {
    forall v :: 0 <= v < |validators| && Passed(validators[v]) ==>
      PassedOk(sys, ledger, |validators| == 1, validators[v].m.block)
  }

  ghost predicate LedgerSound(sys: System, ledger: seq<Block>, alone: bool) {
    && (forall b :: 0 <= b < |ledger| ==> Accepts(sys.h, ledger[b]))
    && IsTree(Hasher(sys.h), ledger)
    && (alone ==> IsChain(Hasher(sys.h), ledger))
  }

  ghost predicate Sound(sys: System, s: State) {
    && MinersProper(sys, s.miners)
    && PipeProper(sys, s.pipe)
    && ReceivedProper(sys, s.validators)
    && AllPassedOk(sys, s.ledger, s.validators)
    && LedgerSound(sys, s.ledger, |s.validators| == 1)
  }

  lemma NewBlockTerminated(miner: nat, blockId: nat, previous: HexHash, now: int, ts: seq<Transaction>, nonce: uint32)
    ensures Terminated(NewBlock(miner, blockId, previous, now, ts).(nonce := nonce))
  {
  }

  lemma MinedIsProper(sys: System, s: State, i: nat, now: int, retry: int, nonce: uint32)
    requires Enabled(sys, s, Mine(i, now, retry, nonce))
    ensures var m := Do(sys, s, Mine(i, now, retry, nonce)).miners[i]; m.Mined? && Proper(sys, m.block)
  {
    hide Accepts, NewBlock, Terminated;
    var x := s.miners[i];
    NewBlockTerminated(i + 1, x.blockId, x.previous, now, x.transactions, nonce);
    NewBlockTerminated(i + 1, x.blockId, x.previous, retry, x.transactions, nonce);
  }

  lemma MinerSound(sys: System, miners: seq<Miner>, i: nat, m: Miner)
    requires MinersProper(sys, miners) && i < |miners| && (m.Mined? ==> Proper(sys, m.block))
    ensures MinersProper(sys, miners[i := m])
  {
    hide Proper;
  }

  /** A validator moves on with the block it had, or with none that has passed. */
  lemma ValidatorSound(sys: System, ledger: seq<Block>, validators: seq<Validator>, v: nat, x: Validator)
    requires ReceivedProper(sys, validators) && AllPassedOk(sys, ledger, validators) && v < |validators|
    requires x.Received? ==> Accepts(sys.h, x.m.block)
    requires Passed(x) ==> PassedOk(sys, ledger, |validators| == 1, x.m.block)
    ensures ReceivedProper(sys, validators[v := x]) && AllPassedOk(sys, ledger, validators[v := x])
  {
    hide Accepts, PassedOk;
  }

  lemma PassedAt(sys: System, ledger: seq<Block>, validators: seq<Validator>, v: nat)
    requires AllPassedOk(sys, ledger, validators) && v < |validators| && Passed(validators[v])
    ensures PassedOk(sys, ledger, |validators| == 1, validators[v].m.block)
  {
    hide PassedOk;
  }

  lemma AppendPassed(sys: System, ledger: seq<Block>, validators: seq<Validator>, v: nat, m: Message)
    requires AllPassedOk(sys, ledger, validators) && v < |validators|
    ensures AllPassedOk(sys, ledger + [m.block], validators[v := Appended(m)])
  {
    hide Accepts, Hasher, HasParent, Links, Tip;
    var x := validators[v := Appended(m)];
    forall u | 0 <= u < |x| && Passed(x[u])
      ensures PassedOk(sys, ledger + [m.block], |x| == 1, x[u].m.block)
    {
      assert PassedOk(sys, ledger, |validators| == 1, validators[u].m.block);
      HasParentGrows(Hasher(sys.h), ledger, m.block, x[u].m.block);
    }
  }

  lemma AppendLedgerSound(sys: System, ledger: seq<Block>, alone: bool, b: Block)
    requires LedgerSound(sys, ledger, alone) && PassedOk(sys, ledger, alone, b)
    ensures LedgerSound(sys, ledger + [b], alone)
  {
    hide Accepts, Hasher, HasParent, Links, Tip, IsTree, IsChain;
    TreeAppend(Hasher(sys.h), ledger, b);
    ChainAppend(Hasher(sys.h), ledger, b);
  }

  lemma LinkedIsPassed(sys: System, ledger: seq<Block>, alone: bool, b: Block)
    requires Accepts(sys.h, b) && Links(b, Tip(Hasher(sys.h), ledger))
    ensures PassedOk(sys, ledger, alone, b)
  {
    hide Accepts, Hasher, Links, Tip;
    assert ledger[..|ledger|] == ledger;
  }

  lemma ForkSound(sys: System, s: State)
    requires Sound(sys, s) && Enabled(sys, s, Fork)
    ensures Sound(sys, Do(sys, s, Fork))
  {
    hide Accepts, Proper, Hasher, HasParent, Links, Tip, IsTree, IsChain;
    var x := s.validators + [Ready];
    forall u | 0 <= u < |x| && Passed(x[u]) ensures PassedOk(sys, s.ledger, |x| == 1, x[u].m.block) {
      PassedAt(sys, s.ledger, s.validators, u);
    }
  }

  lemma MinerStepSound(sys: System, s: State, step: Step)
    requires Sound(sys, s) && Enabled(sys, s, step)
    requires step.Wake? || step.ReadTip? || step.Select? || step.Mine? || step.MineFails? || step.SendFails? || step.GiveBack?
    ensures Sound(sys, Do(sys, s, step))
  {
    hide Accepts, Terminated, Finds, Fails, Reserve, ReturnAll, Tip, Hasher, Revived, NewBlock, Proper, PipeProper,
         ReceivedProper, AllPassedOk, LedgerSound, MinersProper;
    if step.Mine? {
      MinedIsProper(sys, s, step.i, step.now, step.retry, step.nonce);
    }
    MinerSound(sys, s.miners, step.i, Do(sys, s, step).miners[step.i]);
  }

  lemma SendSound(sys: System, s: State, i: nat)
    requires Sound(sys, s) && Enabled(sys, s, Send(i))
    ensures Sound(sys, Do(sys, s, Send(i)))
  {
    assert Proper(sys, s.miners[i].block);
    MinerSound(sys, s.miners, i, Waiting);
    hide Proper, ReceivedProper, AllPassedOk, LedgerSound, MinersProper;
  }

  lemma ReceiveSound(sys: System, s: State, v: nat)
    requires Sound(sys, s) && Enabled(sys, s, Receive(v))
    ensures Sound(sys, Do(sys, s, Receive(v)))
  {
    assert Accepts(sys.h, s.pipe[0].block) by {
      hide Accepts;
      assert Proper(sys, s.pipe[0].block);
    }
    assert PipeProper(sys, s.pipe[1..]) by {
      hide Proper;
    }
    hide Accepts, Proper, PipeProper, ReceivedProper, AllPassedOk, LedgerSound, MinersProper, PassedOk;
    ValidatorSound(sys, s.ledger, s.validators, v, Received(s.pipe[0]));
  }

  lemma CheckLinkSound(sys: System, s: State, v: nat)
    requires Sound(sys, s) && Enabled(sys, s, CheckLink(v))
    ensures Sound(sys, Do(sys, s, CheckLink(v)))
  {
    var m := s.validators[v].m;
    hide Accepts, PipeProper, ReceivedProper, AllPassedOk, LedgerSound, MinersProper, PassedOk, Links, Tip, Hasher;
    if Accepts(sys.h, m.block) && Links(m.block, Tip(Hasher(sys.h), s.ledger)) {
      LinkedIsPassed(sys, s.ledger, |s.validators| == 1, m.block);
      ValidatorSound(sys, s.ledger, s.validators, v, Linked(m));
    } else {
      ValidatorSound(sys, s.ledger, s.validators, v, Reporting(m, false));
    }
  }

  lemma AppendSound(sys: System, s: State, v: nat)
    requires Sound(sys, s) && Enabled(sys, s, Append(v))
    ensures Sound(sys, Do(sys, s, Append(v)))
  {
    var m := s.validators[v].m;
    PassedAt(sys, s.ledger, s.validators, v);
    hide Accepts, PipeProper, ReceivedProper, AllPassedOk, LedgerSound, MinersProper, PassedOk;
    AppendLedgerSound(sys, s.ledger, |s.validators| == 1, m.block);
    AppendPassed(sys, s.ledger, s.validators, v, m);
    ValidatorSound(sys, s.ledger, s.validators, v, Appended(m));
  }

  lemma ValidatorFrame(sys: System, s: State, t: State, v: nat, x: Validator)
    requires Sound(sys, s) && ValidatorAt(s, v) && !x.Received?
    requires Passed(x) ==> Passed(s.validators[v]) && x.m == s.validators[v].m
    requires t.validators == s.validators[v := x]
    requires t.miners == s.miners && t.pipe == s.pipe && t.ledger == s.ledger
    ensures Sound(sys, t)
  {
    hide Accepts, PipeProper, ReceivedProper, AllPassedOk, LedgerSound, MinersProper, PassedOk;
    if Passed(x) {
      PassedAt(sys, s.ledger, s.validators, v);
    }
    ValidatorSound(sys, s.ledger, s.validators, v, x);
  }

  lemma ValidatorStepSound(sys: System, s: State, step: Step)
    requires Sound(sys, s) && Enabled(sys, s, step)
    requires step.CheckPool? || step.CheckCapacity? || step.Remove? || step.GiveBackRefused? || step.Report? || step.Exit?
    ensures Sound(sys, Do(sys, s, step))
  {
    hide Sound, Check, ReturnFirst, PoolSpec.Remove, PercentFull, Revived, RewardSum;
    var t := Do(sys, s, step);
    ValidatorFrame(sys, s, t, step.v, t.validators[step.v]);
  }

  lemma SoundStep(sys: System, s: State, step: Step)
    requires Sound(sys, s) && Enabled(sys, s, step)
    ensures Sound(sys, Do(sys, s, step))
  {
    hide Enabled, Possible, Do, Sound;
    match step
    case Generate(_, _) => PoolStepSound(sys, s, step);
    case Post => PoolStepSound(sys, s, step);
    case Age(_) => PoolStepSound(sys, s, step);
    case Collect => PoolStepSound(sys, s, step);
    case Fork => ForkSound(sys, s);
    case Append(v) => AppendSound(sys, s, v);
    case CheckLink(v) => CheckLinkSound(sys, s, v);
    case Receive(v) => ReceiveSound(sys, s, v);
    case Send(i) => SendSound(sys, s, i);
    case Wake(_) => MinerStepSound(sys, s, step);
    case ReadTip(_) => MinerStepSound(sys, s, step);
    case Select(_) => MinerStepSound(sys, s, step);
    case Mine(_, _, _, _) => MinerStepSound(sys, s, step);
    case MineFails(_, _, _) => MinerStepSound(sys, s, step);
    case SendFails(_) => MinerStepSound(sys, s, step);
    case GiveBack(_) => MinerStepSound(sys, s, step);
    case _ => ValidatorStepSound(sys, s, step);
  }

  lemma PoolStepSound(sys: System, s: State, step: Step)
    requires Sound(sys, s) && Enabled(sys, s, step)
    requires step.Generate? || step.Post? || step.Age? || step.Collect?
    ensures Sound(sys, Do(sys, s, step))
  {
    hide Name, Accepts, Insert, AgeAll, PercentFull, NewTx, PipeProper, ReceivedProper, AllPassedOk, LedgerSound, MinersProper;
  }

  lemma SoundAlways(sys: System, s: State)
    requires Reachable(sys, s)
    ensures Sound(sys, s)
  {
    hide Sound, Enabled, Possible, Do;
    forall s, step | Sound(sys, s) && Enabled(sys, s, step) ensures Sound(sys, Do(sys, s, step)) {
      SoundStep(sys, s, step);
    }
    if ValidConfig(sys.config) {
      SoundAtStart(sys);
    }
    InductiveIsInvariant(sys, s => Sound(sys, s), s);
  }

  lemma SoundAtStart(sys: System)
    requires ValidConfig(sys.config)
    ensures Sound(sys, Init(sys))
  {
    hide Accepts, Hasher, INITIAL_HASH;
  }

  /** As long as only one validator has ever run, the ledger is a chain: block 0 names
      INITIAL_HASH and block i + 1 the hash of block i. With any number of validators it is still
      a tree. Every stored block passes verify_nonce. */
  lemma LedgerShape(sys: System, s: State)
    requires Reachable(sys, s)
    ensures |s.validators| == 1 ==> IsChain(Hasher(sys.h), s.ledger)
    ensures IsTree(Hasher(sys.h), s.ledger)
    ensures forall b :: 0 <= b < |s.ledger| ==> Accepts(sys.h, s.ledger[b])
  {
    hide Accepts, IsChain, IsTree;
    SoundAlways(sys, s);
  }

  /** An append keeps a chain a chain exactly when the block names the tip of that moment, which a
      validator that checked it earlier, under another critical section, cannot know. */
  lemma AppendKeepsChainIff(sys: System, s: State, v: nat)
    requires Reachable(sys, s) && Enabled(sys, s, Append(v)) && IsChain(Hasher(sys.h), s.ledger)
    ensures IsChain(Hasher(sys.h), Do(sys, s, Append(v)).ledger) <==>
      Links(s.validators[v].m.block, Tip(Hasher(sys.h), s.ledger))
    ensures |s.validators| == 1 ==> IsChain(Hasher(sys.h), Do(sys, s, Append(v)).ledger)
  {
    hide Accepts, IsChain, IsTree, Links, Tip, Hasher;
    SoundAlways(sys, s);
    ChainAppend(Hasher(sys.h), s.ledger, s.validators[v].m.block);
    PassedAt(sys, s.ledger, s.validators, v);
  }

  /** Two validators that both checked against the same tip fork the ledger: after both appends
      it is a chain only if the first block names its own hash. */
  lemma SameTipForks(sys: System, s: State, u: nat, v: nat)
    requires Enabled(sys, s, Append(u)) && Enabled(sys, s, Append(v)) && u != v
    requires Links(s.validators[u].m.block, Tip(Hasher(sys.h), s.ledger))
    requires Links(s.validators[v].m.block, Tip(Hasher(sys.h), s.ledger))
    ensures Enabled(sys, Do(sys, s, Append(u)), Append(v))
    ensures IsChain(Hasher(sys.h), Do(sys, Do(sys, s, Append(u)), Append(v)).ledger) ==>
      Links(s.validators[u].m.block, HashHex(sys.h, s.validators[u].m.block))
  {
    hide Accepts, HashHex;
    var t := Do(sys, s, Append(u));
    ChainAppend(Hasher(sys.h), t.ledger, s.validators[v].m.block);
  }

  /** Every message in the pipe passes verify_nonce, and the bytes of the whole queue decode to
      exactly that queue: nothing a miner sends is refused for its proof of work. */
  lemma PipeCarriesProperBlocks(sys: System, s: State)
    requires Reachable(sys, s)
    requires forall n :: 0 <= n < |s.pipe| ==> Sized(s.pipe[n].block) && IsInt32(s.pipe[n].minerId)
    ensures forall n :: 0 <= n < |s.pipe| ==> Accepts(sys.h, s.pipe[n].block)
    ensures DecodeAll(EncodeAll(s.pipe), sys.config.perBlock) == Some(s.pipe)
  {
    hide Accepts, Sized, Reachable, DecodeAll, EncodeAll, Terminated, IsTree, IsChain, DistinctNames, AllNamed, UniqueNames;
    SoundAlways(sys, s);
    PoolIsSound(sys, s);
    forall n | 0 <= n < |s.pipe| ensures Sendable(s.pipe[n], sys.config.perBlock) {
      assert Proper(sys, s.pipe[n].block);
      assert InFlight(s, s.pipe[n].block.transactions);
      InFlightIsReserved(sys, s, s.pipe[n].block.transactions);
    }
    DecodeAllInvertsEncodeAll(s.pipe, sys.config.perBlock);
  }

  /** The validators' proof-of-work test never turns a received block away. */
  lemma ReceivedBlocksPassPow(sys: System, s: State, v: nat)
    requires Reachable(sys, s) && Enabled(sys, s, CheckLink(v))
    ensures Accepts(sys.h, s.validators[v].m.block)
    ensures Do(sys, s, CheckLink(v)).validators[v].Linked? <==>
      Links(s.validators[v].m.block, Tip(Hasher(sys.h), s.ledger))
  {
    hide Accepts, IsTree, IsChain, Links, Tip, Hasher;
    SoundAlways(sys, s);
  }
}
