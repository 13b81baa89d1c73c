/** serialize_block (pow.c) and its left inverse. The same header-and-transactions bytes
    travel through the pipe, so the inverse also serves the pipe format. */
module Serialization {
  import opened Bytes
  import opened Data

  const TX_SIZE: nat := 32       // sizeof(Transaction)
  const HEADER_SIZE: nat := 145  // the five fields copied before the transactions
  const STRUCT_SIZE: nat := 160  // sizeof(TransactionBlock)
  const POINTER_SIZE: nat := 8
  const PADDING: nat := 7        // buffer bytes that no copy reaches

  function TxBytes(t: Transaction): (b: Bytes)
    ensures |b| == TX_SIZE
  {
    t.txId + Int32(t.reward) + Int32(t.value) + Int64(t.timestamp)
  }

  function TxsBytes(ts: seq<Transaction>): (b: Bytes)
    ensures |b| == TX_SIZE * |ts|
  {
    if ts == [] then [] else TxBytes(ts[0]) + TxsBytes(ts[1..])
  }

  function Header(b: Block): (h: Bytes)
    ensures |h| == HEADER_SIZE
  {
    b.txbId + b.previousHash + Int64(b.timestamp) + Int32(b.nonce) + Int32(|b.transactions|)
  }

  function Body(b: Block): Bytes {
    Header(b) + TxsBytes(b.transactions)
  }

  function Serialize(b: Block): Bytes {
    Body(b) + Zeros(PADDING)
  }

  // ----- where the fields lie --------------------------------------------------------------

  lemma TxFields(t: Transaction)
    ensures var b := TxBytes(t);
            && b[..16] == t.txId && b[16..20] == Int32(t.reward) && b[20..24] == Int32(t.value)
            && b[24..32] == Int64(t.timestamp)
  {
    var b := TxBytes(t);
    assert b[..16] == t.txId && b[16..20] == Int32(t.reward);
    assert b[20..24] == Int32(t.value) && b[24..] == Int64(t.timestamp);
  }

  lemma {:induction false} TxsPlaces(ts: seq<Transaction>, i: nat)
    requires i < |ts|
    ensures TxsBytes(ts)[32 * i..32 * i + 32] == TxBytes(ts[i])
  {
    hide TxBytes;
    var all, first, rest := TxsBytes(ts), TxBytes(ts[0]), TxsBytes(ts[1..]);
    assert all == first + rest;
    if i == 0 {
      assert all[0..32] == first;
    } else {
      TxsPlaces(ts[1..], i - 1);
      assert all[32 * i..32 * i + 32] == rest[32 * (i - 1)..32 * (i - 1) + 32];
    }
  }

  /** The buffer that is hashed, byte by byte: five fields, the transactions, seven zeros. */
  lemma SerializedFields(b: Block)
    ensures var s, n := Serialize(b), |b.transactions|;
            && |s| == 152 + 32 * n
            && s[..64] == b.txbId && s[64..129] == b.previousHash && s[129..137] == Int64(b.timestamp)
            && s[137..141] == Int32(b.nonce) && s[141..145] == Int32(n)
            && (forall i :: 0 <= i < n ==> s[145 + 32 * i..177 + 32 * i] == TxBytes(b.transactions[i]))
            && s[145 + 32 * n..] == [0, 0, 0, 0, 0, 0, 0]
  {
    hide TxBytes;
    var s, n := Serialize(b), |b.transactions|;
    var tail := TxsBytes(b.transactions) + Zeros(PADDING);
    assert s == Header(b) + tail;
    HeaderFields(b, tail);
    forall i | 0 <= i < n ensures s[145 + 32 * i..177 + 32 * i] == TxBytes(b.transactions[i]) {
      TxsPlaces(b.transactions, i);
      assert s[145 + 32 * i..177 + 32 * i] == TxsBytes(b.transactions)[32 * i..32 * i + 32];
    }
    assert s[145 + 32 * n..] == Zeros(7) == [0, 0, 0, 0, 0, 0, 0];
  }

  // ----- the inverse -------------------------------------------------------------------

  function ParseTx(b: Bytes): (t: Transaction)
    requires |b| == TX_SIZE
    ensures SizedTx(t)
  {
    Transaction(b[..16], ToInt32(b[16..20]), ToUint32(b[20..24]), ToInt64(b[24..]))
  }

  function ParseTxs(b: Bytes, n: nat): (ts: seq<Transaction>)
    requires |b| == TX_SIZE * n
    ensures |ts| == n && forall i :: 0 <= i < n ==> SizedTx(ts[i])
    decreases n
  {
    if n == 0 then [] else [ParseTx(b[..TX_SIZE])] + ParseTxs(b[TX_SIZE..], n - 1)
  }

  /** Reads a block off the front of `b`; None when `b` is too short or the count is negative. */
  function Parse(b: Bytes): (r: Option<Block>) {
    if |b| < HEADER_SIZE then None
    else
      var n := ToInt32(b[141..145]);
      if n < 0 || |b| < HEADER_SIZE + TX_SIZE * n then None
      else
        Some(Block(b[..64], b[64..129], ToInt64(b[129..137]), ToUint32(b[137..141]),
                   ParseTxs(b[HEADER_SIZE..HEADER_SIZE + TX_SIZE * n], n)))
  }

  lemma ParseTxBytes(t: Transaction)
    requires SizedTx(t)
    ensures ParseTx(TxBytes(t)) == t
  {
    var b := TxBytes(t);
    Int32RoundTrip(t.reward);
    Int32RoundTrip(t.value);
    Int64RoundTrip(t.timestamp);
    assert b[..16] == t.txId && b[16..20] == Int32(t.reward);
    assert b[20..24] == Int32(t.value) && b[24..] == Int64(t.timestamp);
  }

  lemma {:induction false} ParseTxsBytes(ts: seq<Transaction>)
    requires forall i :: 0 <= i < |ts| ==> SizedTx(ts[i])
    ensures ParseTxs(TxsBytes(ts), |ts|) == ts
  {
    if ts != [] {
      ParseTxBytes(ts[0]);
      ParseTxsBytes(ts[1..]);
      var b := TxsBytes(ts);
      assert b[..TX_SIZE] == TxBytes(ts[0]) && b[TX_SIZE..] == TxsBytes(ts[1..]);
    }
  }

  lemma HeaderFields(b: Block, rest: Bytes)
    ensures var h := Header(b) + rest;
            && h[..64] == b.txbId && h[64..129] == b.previousHash
            && h[129..137] == Int64(b.timestamp) && h[137..141] == Int32(b.nonce)
            && h[141..145] == Int32(|b.transactions|)
  {
    var h := Header(b) + rest;
    assert h[..64] == b.txbId;
    assert h[64..129] == b.previousHash;
    assert h[129..137] == Int64(b.timestamp);
    assert h[137..141] == Int32(b.nonce);
    assert h[141..145] == Int32(|b.transactions|);
  }

  /** The bytes of a block determine every field and transaction, whatever bytes follow. */
  lemma ParseInvertsBody(b: Block, rest: Bytes)
    requires Sized(b)
    ensures Parse(Body(b) + rest) == Some(b)
  {
    var n := |b.transactions|;
    var all := Body(b) + rest;
    assert all == Header(b) + (TxsBytes(b.transactions) + rest);
    HeaderFields(b, TxsBytes(b.transactions) + rest);
    Int64RoundTrip(b.timestamp);
    Int32RoundTrip(b.nonce);
    Int32RoundTrip(n);
    assert all[HEADER_SIZE..HEADER_SIZE + TX_SIZE * n] == TxsBytes(b.transactions);
    ParseTxsBytes(b.transactions);
  }

  /** Equal buffers come from equal blocks, also when the two counts might differ. */
  lemma SerializeInjective(a: Block, b: Block)
    requires Sized(a) && Sized(b)
    requires Serialize(a) == Serialize(b)
    ensures a == b
  {
    ParseInvertsBody(a, Zeros(PADDING));
    ParseInvertsBody(b, Zeros(PADDING));
  }

  // ----- the buffer as the program fills it ----------------------------------------------

  method Memcpy(dst: array<byte>, at: nat, src: Bytes)
    requires at + |src| <= dst.Length
    modifies dst
    ensures dst[..] == old(dst[..at]) + src + old(dst[at + |src|..])
  {
    ghost var before := dst[..];
    var i := 0;
    while i < |src|
      invariant 0 <= i <= |src|
      invariant forall j :: at <= j < at + i ==> dst[j] == src[j - at]
      invariant forall j :: 0 <= j < dst.Length && !(at <= j < at + i) ==> dst[j] == before[j]
    {
      dst[at + i] := src[i];
      i := i + 1;
    }
    assert dst[..] == before[..at] + src + before[at + |src|..];
  }

  /** Every copy lands inside the allocated buffer, and the last PADDING bytes stay zero. */
  method SerializeBlock(b: Block) returns (buffer: array<byte>)
    ensures fresh(buffer)
    ensures buffer.Length == 152 + 32 * |b.transactions|
    ensures buffer[..] == Serialize(b)
  {
    var txsSize := TX_SIZE * |b.transactions|;
    buffer := new byte[STRUCT_SIZE - POINTER_SIZE + txsSize](_ => 0);
    ghost var n := buffer.Length;
    assert buffer[..] == Zeros(n);
    var ptr := 0;
    Memcpy(buffer, ptr, b.txbId);
    ptr := ptr + TXB_ID_LEN;
    assert buffer[..] == b.txbId + Zeros(n - 64);
    Memcpy(buffer, ptr, b.previousHash);
    ptr := ptr + HASH_SIZE;
    assert buffer[..] == b.txbId + b.previousHash + Zeros(n - 129);
    Memcpy(buffer, ptr, Int64(b.timestamp));
    ptr := ptr + 8;
    assert buffer[..] == b.txbId + b.previousHash + Int64(b.timestamp) + Zeros(n - 137);
    Memcpy(buffer, ptr, Int32(b.nonce));
    ptr := ptr + 4;
    assert buffer[..] == b.txbId + b.previousHash + Int64(b.timestamp) + Int32(b.nonce) + Zeros(n - 141);
    Memcpy(buffer, ptr, Int32(|b.transactions|));
    ptr := ptr + 4;
    assert buffer[..] == Header(b) + Zeros(n - HEADER_SIZE);
    Memcpy(buffer, ptr, TxsBytes(b.transactions));
  }
}
