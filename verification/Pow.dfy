/** pow.c: the hex digest, the difficulty test, verify_nonce and the nonce search. Every
    statement holds for every hash function `h`; nothing is assumed about it. */
module Pow {
  import opened Bytes
  import opened Data
  import opened Serialization

  type Digest = d: Bytes | |d| == 32 witness Zeros(32)
  type HashFn = Bytes -> Digest

  /** A block hash as a C string: 64 hex characters. */
  type HexHash = s: Bytes | |s| == HASH_SIZE - 1 && 0 !in s witness Hex(Zeros(32))

  const POW_MAX_OPS: nat := 10000000
  const ZERO_CHAR: byte := 48

  // ----- the digest as text --------------------------------------------------------------

  function HexChar(n: nat): (c: byte)
    requires n < 16
    ensures c != 0 && (c == ZERO_CHAR <==> n == 0)
  {
    if n < 10 then 48 + n else 87 + n
  }

  function Nibble(d: Bytes, j: nat): (n: nat)
    requires j < 2 * |d|
    ensures n < 16
  {
    if j % 2 == 0 then d[j / 2] / 16 else d[j / 2] % 16
  }

  function Hex(d: Bytes): (s: Bytes)
    ensures |s| == 2 * |d|
    ensures forall j :: 0 <= j < |s| ==> s[j] == HexChar(Nibble(d, j))
    ensures 0 !in s
  {
    seq(2 * |d|, j requires 0 <= j < 2 * |d| => HexChar(Nibble(d, j)))
  }

  lemma HexInjective(a: Bytes, b: Bytes)
    requires |a| == |b| && Hex(a) == Hex(b)
    ensures a == b
  {
    forall i | 0 <= i < |a| ensures a[i] == b[i] {
      assert Hex(a)[2 * i] == Hex(b)[2 * i] && Hex(a)[2 * i + 1] == Hex(b)[2 * i + 1];
      assert (2 * i) / 2 == i && (2 * i + 1) / 2 == i;
    }
  }

  /** What compute_sha256 leaves in its 65-byte output, as a C string. */
  function HashHex(h: HashFn, b: Block): (s: HexHash) {
    Hex(h(Serialize(b)))
  }

  lemma HexDigits(n: nat)
    requires n < 16
    ensures HexChar(n) == "0123456789abcdef"[n] as int
  {
  }

  lemma DigitsOfByte(d: Bytes, i: nat)
    requires i < |d|
    ensures HexChar(Nibble(d, 2 * i)) == "0123456789abcdef"[d[i] / 16] as int
    ensures HexChar(Nibble(d, 2 * i + 1)) == "0123456789abcdef"[d[i] % 16] as int
  {
    HexDigits(d[i] / 16);
    HexDigits(d[i] % 16);
    hide HexChar;
    assert (2 * i) / 2 == i && (2 * i + 1) / 2 == i;
  }

  method ComputeSha256(h: HashFn, b: Block) returns (output: array<byte>)
    ensures fresh(output)
    ensures output[..] == HashHex(h, b) + [0]
    ensures output.Length == 65 && output[64] == 0
    ensures var d := h(Serialize(b));
            forall i :: 0 <= i < 32 ==>
              && output[2 * i] == "0123456789abcdef"[d[i] / 16] as int
              && output[2 * i + 1] == "0123456789abcdef"[d[i] % 16] as int
  {
    hide HexChar, Serialize;
    var serialized := SerializeBlock(b);
    var hash := h(serialized[..]);
    output := new byte[HASH_SIZE](_ => 0);
    for i := 0 to 32
      invariant forall j :: 0 <= j < 2 * i ==> output[j] == HexChar(Nibble(hash, j))
      invariant output[HASH_SIZE - 1] == 0
    {
      output[i * 2] := HexChar(hash[i] / 16);
      output[i * 2 + 1] := HexChar(hash[i] % 16);
    }
    output[HASH_SIZE - 1] := 0;
    forall i | 0 <= i < 32
      ensures output[2 * i] == "0123456789abcdef"[hash[i] / 16] as int
      ensures output[2 * i + 1] == "0123456789abcdef"[hash[i] % 16] as int
    {
      DigitsOfByte(hash, i);
    }
  }

  // ----- difficulty ----------------------------------------------------------------------

  datatype DifficultyLevel = EASY | NORMAL | HARD

  function DifficultyFromReward(reward: int): DifficultyLevel {
    match reward
    case 1 => EASY
    case 2 => NORMAL
    case _ => if reward >= 3 then HARD else EASY
  }

  function ZerosRequired(reward: int): (z: nat)
    ensures 2 <= z <= 4
  {
    match DifficultyFromReward(reward)
    case EASY => 2
    case NORMAL => 3
    case HARD => 4
  }

  predicate LeadingZeros(hash: Bytes, z: nat)
    requires z <= |hash|
  {
    forall i :: 0 <= i < z ==> hash[i] == ZERO_CHAR
  }

  method CheckDifficulty(hash: Bytes, reward: int) returns (r: bool)
    requires |hash| >= HASH_SIZE - 1
    ensures r <==> LeadingZeros(hash, ZerosRequired(reward))
    ensures reward <= 1 ==> (r <==> hash[0] == hash[1] == 48)
    ensures reward == 2 ==> (r <==> hash[0] == hash[1] == hash[2] == 48)
    ensures reward >= 3 ==> (r <==> hash[0] == hash[1] == hash[2] == hash[3] == 48)
  {
    var zerosRequired := ZerosRequired(reward);
    if zerosRequired < 1 {
      zerosRequired := 1;
    }
    if zerosRequired > HASH_SIZE - 1 {
      zerosRequired := HASH_SIZE - 1;
    }
    var i := 0;
    while i < zerosRequired
      invariant 0 <= i <= zerosRequired
      invariant LeadingZeros(hash, i)
    {
      if hash[i] != ZERO_CHAR {
        return false;
      }
      i := i + 1;
    }
    return true;
  }

  function Pow16(n: nat): (p: nat)
    ensures p > 0
  {
    if n == 0 then 1 else 16 * Pow16(n - 1)
  }

  function BigEndian(d: Bytes): nat {
    if d == [] then 0 else 256 * BigEndian(d[..|d| - 1]) + d[|d| - 1]
  }

  lemma HexPrefix(d: Bytes, z: nat)
    requires d != [] && z <= 2 * (|d| - 1)
    ensures LeadingZeros(Hex(d), z) <==> LeadingZeros(Hex(d[..|d| - 1]), z)
  {
    var p := d[..|d| - 1];
    forall j | 0 <= j < z ensures Hex(d)[j] == Hex(p)[j] {
      assert Nibble(d, j) == Nibble(p, j);
    }
  }

  /** Requiring z leading zero characters is requiring a digest below 16^(2n - z). */
  lemma {:induction false} DifficultyIsABound(d: Bytes, z: nat)
    requires z <= 2 * |d|
    ensures LeadingZeros(Hex(d), z) <==> BigEndian(d) < Pow16(2 * |d| - z)
  {
    if d == [] {
    } else {
      var n := |d| - 1;
      var p := d[..n];
      if z <= 2 * n {
        HexPrefix(d, z);
        DifficultyIsABound(p, z);
        assert Pow16(2 * |d| - z) == 256 * Pow16(2 * n - z);
      } else {
        HexPrefix(d, 2 * n);
        DifficultyIsABound(p, 2 * n);
        assert Pow16(0) == 1 && Pow16(1) == 16;
        assert Hex(d)[2 * n] == HexChar(d[n] / 16);
        assert Hex(d)[2 * n + 1] == HexChar(d[n] % 16);
        if z == 2 * n + 1 {
          assert LeadingZeros(Hex(d), z) <==> LeadingZeros(Hex(d), 2 * n) && d[n] / 16 == 0;
        } else {
          assert z == 2 * n + 2;
          assert LeadingZeros(Hex(d), z) <==> LeadingZeros(Hex(d), 2 * n) && d[n] / 16 == 0 && d[n] % 16 == 0;
        }
      }
    }
  }

  /** A digest good enough for a reward is good enough for every smaller one. */
  lemma HigherRewardIsHarder(d: Digest, reward: int, lower: int)
    requires lower <= reward
    requires LeadingZeros(Hex(d), ZerosRequired(reward))
    ensures LeadingZeros(Hex(d), ZerosRequired(lower))
    ensures BigEndian(d) < Pow16(64 - ZerosRequired(reward)) <= Pow16(64 - ZerosRequired(lower))
  {
    DifficultyIsABound(d, ZerosRequired(reward));
    Pow16Monotone(64 - ZerosRequired(reward), 64 - ZerosRequired(lower));
  }

  lemma {:induction false} Pow16Monotone(m: nat, n: nat)
    requires m <= n
    ensures Pow16(m) <= Pow16(n)
  {
    if m < n {
      Pow16Monotone(m, n - 1);
    }
  }

  // ----- verify_nonce --------------------------------------------------------------------

  function MaxReward(ts: seq<Transaction>): (m: int)
    ensures m >= 0
    ensures forall i :: 0 <= i < |ts| ==> ts[i].reward <= m
    ensures m == 0 || exists i :: 0 <= i < |ts| && ts[i].reward == m
  {
    if ts == [] then 0
    else
      var m := MaxReward(ts[..|ts| - 1]);
      if ts[|ts| - 1].reward > m then ts[|ts| - 1].reward else m
  }

  /** The block's hash meets the difficulty of its dearest transaction. */
  ghost predicate Accepts(h: HashFn, b: Block) {
    LeadingZeros(HashHex(h, b), ZerosRequired(MaxReward(b.transactions)))
  }

  lemma TerminatorIsIrrelevant(s: Bytes, z: nat)
    requires z <= |s|
    ensures LeadingZeros(s + [0], z) <==> LeadingZeros(s, z)
  {
    assert forall i :: 0 <= i < z ==> (s + [0])[i] == s[i];
  }

  /** What the first bytes of the digest must be, by the block's rewards. */
  lemma AcceptsByBytes(h: HashFn, b: Block)
    ensures var d, ts := h(Serialize(b)), b.transactions;
            Accepts(h, b) <==>
              && d[0] == 0
              && ((exists i :: 0 <= i < |ts| && ts[i].reward >= 2) ==> d[1] < 16)
              && ((exists i :: 0 <= i < |ts| && ts[i].reward >= 3) ==> d[1] == 0)
  {
    hide Serialize;
    var d := h(Serialize(b));
    assert forall j :: 0 <= j < 4 ==> (Hex(d)[j] == ZERO_CHAR <==> Nibble(d, j) == 0);
    assert Nibble(d, 0) == d[0] / 16 && Nibble(d, 1) == d[0] % 16;
    assert Nibble(d, 2) == d[1] / 16 && Nibble(d, 3) == d[1] % 16;
  }

  /** The same as bounds on the digest, read as a big-endian number. */
  lemma AcceptsByBound(h: HashFn, b: Block)
    ensures var d, ts := BigEndian(h(Serialize(b))), b.transactions;
            Accepts(h, b) <==>
              && d < Pow16(62)
              && ((exists i :: 0 <= i < |ts| && ts[i].reward >= 2) ==> d < Pow16(61))
              && ((exists i :: 0 <= i < |ts| && ts[i].reward >= 3) ==> d < Pow16(60))
  {
    hide Serialize, BigEndian, Pow16, LeadingZeros;
    var d := h(Serialize(b));
    DifficultyIsABound(d, ZerosRequired(MaxReward(b.transactions)));
    Pow16Monotone(60, 61);
    Pow16Monotone(61, 62);
  }

  method FindMaxReward(ts: seq<Transaction>) returns (maxReward: int)
    ensures maxReward == MaxReward(ts)
  {
    maxReward := 0;
    for i := 0 to |ts|
      invariant maxReward == MaxReward(ts[..i])
    {
      assert ts[..i + 1][..i] == ts[..i];
      if ts[i].reward > maxReward {
        maxReward := ts[i].reward;
      }
    }
    assert ts[..|ts|] == ts;
  }

  method HashAndTest(h: HashFn, b: Block, maxReward: int) returns (hash: HexHash, met: bool)
    requires maxReward == MaxReward(b.transactions)
    ensures hash == HashHex(h, b)
    ensures met <==> Accepts(h, b)
  {
    var output := ComputeSha256(h, b);
    TerminatorIsIrrelevant(HashHex(h, b), ZerosRequired(maxReward));
    met := CheckDifficulty(output[..], maxReward);
    assert output[..HASH_SIZE - 1] == output[..][..HASH_SIZE - 1] == HashHex(h, b);
    hash := output[..HASH_SIZE - 1];
  }

  method VerifyNonce(h: HashFn, b: Block) returns (r: bool)
    ensures r <==> Accepts(h, b)
    ensures var d, ts := BigEndian(h(Serialize(b))), b.transactions;
            r <==>
              && d < Pow16(62)
              && ((exists i :: 0 <= i < |ts| && ts[i].reward >= 2) ==> d < Pow16(61))
              && ((exists i :: 0 <= i < |ts| && ts[i].reward >= 3) ==> d < Pow16(60))
  {
    hide Accepts, Serialize, BigEndian, Pow16;
    var maxReward := FindMaxReward(b.transactions);
    var hash;
    hash, r := HashAndTest(h, b, maxReward);
    AcceptsByBound(h, b);
  }

  // ----- the search ------------------------------------------------------------------------

  ghost predicate AcceptsWith(h: HashFn, b: Block, nonce: nat) {
    nonce < POW_MAX_OPS && Accepts(h, b.(nonce := nonce))
  }

  /** `nonce` is the least one below POW_MAX_OPS that the validator's test accepts. */
  ghost predicate Finds(h: HashFn, b: Block, nonce: nat) {
    AcceptsWith(h, b, nonce) && forall m: nat :: m < nonce ==> !AcceptsWith(h, b, m)
  }

  ghost predicate Fails(h: HashFn, b: Block) {
    forall m: nat :: m < POW_MAX_OPS ==> !AcceptsWith(h, b, m)
  }

  lemma SearchMeans(h: HashFn, b: Block)
    ensures Fails(h, b) <==> forall n: uint32 :: n < 10000000 ==> !Accepts(h, b.(nonce := n))
    ensures forall n: uint32 :: Finds(h, b, n) ==>
      n < 10000000 && Accepts(h, b.(nonce := n)) && forall m: uint32 :: m < n ==> !Accepts(h, b.(nonce := m))
  {
    hide Accepts;
    if forall n: uint32 :: n < 10000000 ==> !Accepts(h, b.(nonce := n)) {
      forall m: nat | m < POW_MAX_OPS ensures !AcceptsWith(h, b, m) {
        var n: uint32 := m;
        assert !Accepts(h, b.(nonce := n));
      }
    }
    if Fails(h, b) {
      forall n: uint32 | n < 10000000 ensures !Accepts(h, b.(nonce := n)) {
        assert !AcceptsWith(h, b, n);
      }
    }
    forall n: uint32, m: uint32 | Finds(h, b, n) && m < n ensures !Accepts(h, b.(nonce := m)) {
      assert !AcceptsWith(h, b, m);
    }
  }

  /** Either no nonce below the limit works, or there is exactly one least nonce. */
  lemma SearchIsDecided(h: HashFn, b: Block)
    ensures Fails(h, b) <==> !exists n: nat :: Finds(h, b, n)
    ensures forall m: nat, n: nat :: Finds(h, b, m) && Finds(h, b, n) ==> m == n
  {
    if !Fails(h, b) {
      var m: nat :| m < POW_MAX_OPS && AcceptsWith(h, b, m);
      LeastBelow(h, b, m);
    }
  }

  lemma {:induction false} LeastBelow(h: HashFn, b: Block, m: nat)
    requires AcceptsWith(h, b, m)
    ensures exists n: nat :: n <= m && Finds(h, b, n)
    decreases m
  {
    if !Finds(h, b, m) {
      var l: nat :| l < m && AcceptsWith(h, b, l);
      LeastBelow(h, b, l);
    }
  }

  /** `hash` is empty on failure. */
  datatype PowResult = PowResult(hash: Bytes, operations: nat, error: bool)

  /** A TransactionBlock under construction: the miner changes `timestamp` and `nonce` in place. */
  class TransactionBlock {
    var txbId: BlockIdField
    var previousHash: HashField
    var timestamp: int
    var nonce: uint32
    var transactions: seq<Transaction>

    ghost function Value(): Block
      reads this
    {
      Block(txbId, previousHash, timestamp, nonce, transactions)
    }

    constructor (txbId: BlockIdField, previousHash: HashField, timestamp: int, transactions: seq<Transaction>)
      ensures Value() == Block(txbId, previousHash, timestamp, 0, transactions)
    {
      this.txbId, this.previousHash, this.timestamp := txbId, previousHash, timestamp;
      this.nonce, this.transactions := 0, transactions;
    }

    method ProofOfWork(h: HashFn) returns (r: PowResult)
      modifies this`nonce
      ensures Value() == old(Value()).(nonce := nonce)
      ensures r.error <==> Fails(h, old(Value()))
      ensures !r.error ==>
        && Finds(h, old(Value()), nonce)
        && r == PowResult(HashHex(h, Value()), nonce + 1, false)
      ensures r.error ==> nonce == POW_MAX_OPS && r == PowResult([], POW_MAX_OPS, true)
      ensures r.error <==> forall n: uint32 :: n < 10000000 ==> !Accepts(h, old(Value()).(nonce := n))
      ensures !r.error ==>
        && nonce < 10000000 && Accepts(h, Value())
        && forall n: uint32 :: n < nonce ==> !Accepts(h, old(Value()).(nonce := n))
    {
      hide Accepts, HashHex, MaxReward;
      var operations := 0;
      var maxReward := FindMaxReward(transactions);
      nonce := 0;
      ghost var start := old(Value());
      SearchMeans(h, start);
      while nonce < POW_MAX_OPS
        invariant operations == nonce <= POW_MAX_OPS
        invariant Value() == start.(nonce := nonce)
        invariant forall m: nat :: m < nonce ==> !AcceptsWith(h, start, m)
        decreases POW_MAX_OPS - nonce
      {
        operations := operations + 1;
        var hash, met := HashAndTest(h, Block(txbId, previousHash, timestamp, nonce, transactions), maxReward);
        assert met <==> AcceptsWith(h, start, nonce);
        if met {
          return PowResult(hash, operations, false);
        }
        nonce := nonce + 1;
        if operations >= POW_MAX_OPS {
          break;
        }
      }
      return PowResult([], operations, true);
    }
  }
}
