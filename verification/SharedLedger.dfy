/** The ledger's shared-memory segment: a header, an array of entries, then all transactions,
    with every address computed by hand (validator.c, controller.c). It refines a sequence of
    blocks. */
module SharedLedger {
  import opened Bytes
  import opened Data
  import opened Serialization
  import opened Pow
  import opened Chain

  const LEDGER_SIZE: nat := 40   // sizeof(BlockchainLedger)
  const ENTRY_SIZE: nat := 168   // sizeof(BlockchainEntry): the block struct, `valid`, padding
  const INT_MAX: nat := 0x7fff_ffff

  /** An int product as computed in 32 bits. */
  function IntProduct(a: nat, b: nat): (p: int)
    ensures -0x8000_0000 <= p < 0x8000_0000 && (a * b - p) % 0x1_0000_0000 == 0
  {
    (a * b + TWO_31) % TWO_32 - TWO_31
  }

  function EntryAt(n: nat): nat { LEDGER_SIZE + n * ENTRY_SIZE }

  function TxsBase(maxBlocks: nat): nat { LEDGER_SIZE + maxBlocks * ENTRY_SIZE }

  /** transactions_base + num_blocks * transactions_per_block * sizeof(Transaction). */
  function TxsAt(maxBlocks: nat, k: nat, n: nat): int {
    TxsBase(maxBlocks) + IntProduct(n, k) * TX_SIZE
  }

  function SegmentSize(maxBlocks: nat, k: nat): nat {
    LEDGER_SIZE + maxBlocks * (ENTRY_SIZE + k * TX_SIZE)
  }

  /** The addresses in plain numbers. */
  lemma Addresses(maxBlocks: nat, k: nat, n: nat)
    ensures EntryAt(n) == 40 + 168 * n
    ensures IntProduct(n, k) == n * k ==> TxsAt(maxBlocks, k, n) == 40 + 168 * maxBlocks + 32 * (n * k)
    ensures SegmentSize(maxBlocks, k) == 40 + 168 * maxBlocks + 32 * (maxBlocks * k)
  {
    assert maxBlocks * (ENTRY_SIZE + k * TX_SIZE) == maxBlocks * ENTRY_SIZE + maxBlocks * k * TX_SIZE;
  }

  lemma MulMonotone(a: nat, b: nat, k: nat)
    requires a <= b
    ensures a * k <= b * k
  {
  }

  /** The number of transactions before the last block fits an int. */
  predicate FitsInt(maxBlocks: nat, k: nat) { (maxBlocks - 1) * k <= INT_MAX }

  /** Every block's offset is the intended one exactly then. */
  lemma OffsetsExactIff(maxBlocks: nat, k: nat)
    requires maxBlocks > 0
    ensures (forall n :: 0 <= n < maxBlocks ==> IntProduct(n, k) == n * k) <==> FitsInt(maxBlocks, k)
  {
    if FitsInt(maxBlocks, k) {
      forall n | 0 <= n < maxBlocks ensures IntProduct(n, k) == n * k {
        MulMonotone(n, maxBlocks - 1, k);
      }
    } else {
      assert IntProduct(maxBlocks - 1, k) != (maxBlocks - 1) * k;
    }
  }

  lemma FitsFewer(maxBlocks: nat, k: nat)
    requires FitsInt(maxBlocks + 1, k)
    ensures FitsInt(maxBlocks, k)
  {
  }

  lemma Exact(maxBlocks: nat, k: nat, n: nat)
    requires FitsInt(maxBlocks, k) && n < maxBlocks
    ensures TxsAt(maxBlocks, k, n) == TxsBase(maxBlocks) + n * k * TX_SIZE
  {
    MulMonotone(n, maxBlocks - 1, k);
  }

  /** The regions of different blocks do not overlap, and all lie inside the segment. */
  lemma Layout(maxBlocks: nat, k: nat, i: nat, n: nat)
    requires FitsInt(maxBlocks, k) && i < n < maxBlocks
    ensures EntryAt(i) + ENTRY_SIZE <= EntryAt(n)
    ensures EntryAt(n) + ENTRY_SIZE <= TxsAt(maxBlocks, k, i)
    ensures TxsAt(maxBlocks, k, i) + k * TX_SIZE <= TxsAt(maxBlocks, k, n)
    ensures TxsAt(maxBlocks, k, n) + k * TX_SIZE <= SegmentSize(maxBlocks, k)
  {
    Inside(maxBlocks, k, n);
    Inside(maxBlocks, k, i);
    MulMonotone(i + 1, n, k);
    Exact(maxBlocks, k, i);
    Exact(maxBlocks, k, n);
  }

  lemma Inside(maxBlocks: nat, k: nat, n: nat)
    requires FitsInt(maxBlocks, k) && n < maxBlocks
    ensures LEDGER_SIZE <= EntryAt(n) && EntryAt(n) + ENTRY_SIZE <= TxsBase(maxBlocks) <= TxsAt(maxBlocks, k, n)
    ensures TxsAt(maxBlocks, k, n) + k * TX_SIZE <= SegmentSize(maxBlocks, k)
  {
    Exact(maxBlocks, k, n);
    MulMonotone(n + 1, maxBlocks, k);
    assert (n + 1) * k == n * k + k;
    assert maxBlocks * (ENTRY_SIZE + k * TX_SIZE) == maxBlocks * ENTRY_SIZE + maxBlocks * k * TX_SIZE;
  }

  // ----- what is stored --------------------------------------------------------------------------

  /** The 160 bytes of a TransactionBlock struct. */
  function StructBytes(b: Block, padding: Bytes, pointer: nat): (s: Bytes)
    requires |padding| == 7
    ensures |s| == STRUCT_SIZE
  {
    b.txbId + b.previousHash + padding + Int64(b.timestamp) + LE(pointer, 8) + Int32(b.nonce) + Int32(|b.transactions|)
  }

  function PointerOf(e: Bytes): nat requires |e| == ENTRY_SIZE { FromLE(e[144..152]) }
  function CountOf(e: Bytes): int requires |e| == ENTRY_SIZE { ToInt32(e[156..160]) }
  function ValidOf(e: Bytes): int requires |e| == ENTRY_SIZE { ToInt32(e[160..164]) }

  function EntryBytes(m: Bytes, n: nat): (e: Bytes)
    requires EntryAt(n) + ENTRY_SIZE <= |m|
    ensures |e| == ENTRY_SIZE
  {
    m[EntryAt(n)..EntryAt(n) + ENTRY_SIZE]
  }

  function Assemble(e: Bytes, ts: seq<Transaction>): Block
    requires |e| == ENTRY_SIZE
  {
    Block(e[..64], e[64..129], ToInt64(e[136..144]), ToUint32(e[152..156]), ts)
  }

  /** The block as dump_ledger finds it: header from the entry, transactions from the
      recomputed address. */
  function BlockAt(m: Bytes, maxBlocks: nat, k: nat, n: nat): Block
    requires FitsInt(maxBlocks, k) && |m| == SegmentSize(maxBlocks, k) && n < maxBlocks
  {
    Inside(maxBlocks, k, n);
    var at := TxsAt(maxBlocks, k, n);
    Assemble(EntryBytes(m, n), ParseTxs(m[at..at + k * TX_SIZE], k))
  }

  /** What makes the stored pointer, count and flag agree with the recomputed address. */
  predicate EntryOk(m: Bytes, maxBlocks: nat, k: nat, n: nat)
    requires FitsInt(maxBlocks, k) && |m| == SegmentSize(maxBlocks, k) && n < maxBlocks
  {
    Inside(maxBlocks, k, n);
    var e := EntryBytes(m, n);
    PointerOf(e) == TxsAt(maxBlocks, k, n) && CountOf(e) == k && ValidOf(e) == 1
  }

  function Contents(m: Bytes, maxBlocks: nat, k: nat, n: nat): (bs: seq<Block>)
    requires FitsInt(maxBlocks, k) && |m| == SegmentSize(maxBlocks, k) && n <= maxBlocks
    ensures |bs| == n
  {
    if n == 0 then [] else Contents(m, maxBlocks, k, n - 1) + [BlockAt(m, maxBlocks, k, n - 1)]
  }

  // ----- writing -----------------------------------------------------------------------------------

  function Write(m: Bytes, at: nat, src: Bytes): (r: Bytes)
    requires at + |src| <= |m|
    ensures |r| == |m|
  {
    m[..at] + src + m[at + |src|..]
  }

  lemma WriteOutside(m: Bytes, at: nat, src: Bytes, lo: nat, hi: nat)
    requires at + |src| <= |m| && lo <= hi <= |m| && (hi <= at || at + |src| <= lo)
    ensures Write(m, at, src)[lo..hi] == m[lo..hi]
  {
  }

  lemma WriteInside(m: Bytes, at: nat, src: Bytes, lo: nat, hi: nat)
    requires at + |src| <= |m| && at <= lo <= hi <= at + |src|
    ensures Write(m, at, src)[lo..hi] == src[lo - at..hi - at]
  {
  }

  lemma SubSlice(m: Bytes, a: nat, b: nat, c: nat, d: nat)
    requires a <= b <= |m| && c <= d <= b - a
    ensures m[a..b][c..d] == m[a + c..a + d]
  {
    var l, r := m[a..b][c..d], m[a + c..a + d];
    forall i | 0 <= i < d - c ensures l[i] == r[i] {
    }
  }

  /** The four copies of add_block_to_ledger, in order: the struct, the transactions, the pointer
      to them, the flag. */
  function Append(m: Bytes, maxBlocks: nat, k: nat, n: nat, b: Block, padding: Bytes, pointer: nat): (r: Bytes)
    requires FitsInt(maxBlocks, k) && |m| == SegmentSize(maxBlocks, k) && n < maxBlocks
    requires |padding| == 7 && |b.transactions| == k
    ensures |r| == |m|
  {
    Inside(maxBlocks, k, n);
    var at := TxsAt(maxBlocks, k, n);
    var m1 := Write(m, EntryAt(n), StructBytes(b, padding, pointer));
    var m2 := Write(m1, at, TxsBytes(b.transactions));
    var m3 := Write(m2, EntryAt(n) + 144, LE(at, 8));
    Write(m3, EntryAt(n) + 160, Int32(1))
  }

  /** Bytes outside the new entry and the new region stay as they were. */
  lemma AppendOutside(m: Bytes, maxBlocks: nat, k: nat, n: nat, b: Block, padding: Bytes, pointer: nat, lo: nat, hi: nat)
    requires FitsInt(maxBlocks, k) && |m| == SegmentSize(maxBlocks, k) && n < maxBlocks
    requires |padding| == 7 && |b.transactions| == k
    requires lo <= hi <= |m|
    requires hi <= EntryAt(n) || EntryAt(n) + ENTRY_SIZE <= lo
    requires hi <= TxsAt(maxBlocks, k, n) || TxsAt(maxBlocks, k, n) + k * TX_SIZE <= lo
    ensures Append(m, maxBlocks, k, n, b, padding, pointer)[lo..hi] == m[lo..hi]
  {
    hide Write, StructBytes, TxsBytes, LE, Int32, EntryAt, TxsAt, FitsInt;
    Inside(maxBlocks, k, n);
    var at := TxsAt(maxBlocks, k, n);
    var m1 := Write(m, EntryAt(n), StructBytes(b, padding, pointer));
    var m2 := Write(m1, at, TxsBytes(b.transactions));
    var m3 := Write(m2, EntryAt(n) + 144, LE(at, 8));
    WriteOutside(m, EntryAt(n), StructBytes(b, padding, pointer), lo, hi);
    WriteOutside(m1, at, TxsBytes(b.transactions), lo, hi);
    WriteOutside(m2, EntryAt(n) + 144, LE(at, 8), lo, hi);
    WriteOutside(m3, EntryAt(n) + 160, Int32(1), lo, hi);
  }

  /** The new entry's bytes. */
  lemma AppendEntry(m: Bytes, maxBlocks: nat, k: nat, n: nat, b: Block, padding: Bytes, pointer: nat)
    requires FitsInt(maxBlocks, k) && |m| == SegmentSize(maxBlocks, k) && n < maxBlocks
    requires |padding| == 7 && |b.transactions| == k
    ensures EntryAt(n) + ENTRY_SIZE <= |m| && TxsAt(maxBlocks, k, n) >= 0
    ensures var e := EntryBytes(Append(m, maxBlocks, k, n, b, padding, pointer), n);
            var s := StructBytes(b, padding, pointer);
            && e[..144] == s[..144] && e[144..152] == LE(TxsAt(maxBlocks, k, n), 8)
            && e[152..160] == s[152..160] && e[160..164] == Int32(1)
  {
    hide Write, StructBytes, TxsBytes, LE, Int32, EntryAt, TxsAt, FitsInt;
    Inside(maxBlocks, k, n);
    var at, e, s := TxsAt(maxBlocks, k, n), EntryAt(n), StructBytes(b, padding, pointer);
    var m1 := Write(m, e, s);
    var m2 := Write(m1, at, TxsBytes(b.transactions));
    var m3 := Write(m2, e + 144, LE(at, 8));
    WriteInside(m, e, s, e, e + 144);
    WriteOutside(m1, at, TxsBytes(b.transactions), e, e + 144);
    WriteOutside(m2, e + 144, LE(at, 8), e, e + 144);
    WriteOutside(m3, e + 160, Int32(1), e, e + 144);
    WriteInside(m, e, s, e + 152, e + 160);
    WriteOutside(m1, at, TxsBytes(b.transactions), e + 152, e + 160);
    WriteOutside(m2, e + 144, LE(at, 8), e + 152, e + 160);
    WriteOutside(m3, e + 160, Int32(1), e + 152, e + 160);
    WriteInside(m2, e + 144, LE(at, 8), e + 144, e + 152);
    WriteOutside(m3, e + 160, Int32(1), e + 144, e + 152);
    WriteInside(m3, e + 160, Int32(1), e + 160, e + 164);
    var r := Write(m3, e + 160, Int32(1));
    SubSlice(r, e, e + ENTRY_SIZE, 0, 144);
    SubSlice(r, e, e + ENTRY_SIZE, 144, 152);
    SubSlice(r, e, e + ENTRY_SIZE, 152, 160);
    SubSlice(r, e, e + ENTRY_SIZE, 160, 164);
  }

  lemma AppendRegion(m: Bytes, maxBlocks: nat, k: nat, n: nat, b: Block, padding: Bytes, pointer: nat)
    requires FitsInt(maxBlocks, k) && |m| == SegmentSize(maxBlocks, k) && n < maxBlocks
    requires |padding| == 7 && |b.transactions| == k
    ensures 0 <= TxsAt(maxBlocks, k, n) <= |m| - k * TX_SIZE
    ensures var at := TxsAt(maxBlocks, k, n);
            Append(m, maxBlocks, k, n, b, padding, pointer)[at..at + k * TX_SIZE] == TxsBytes(b.transactions)
  {
    hide Write, StructBytes, TxsBytes, LE, Int32, EntryAt, TxsAt, FitsInt;
    Inside(maxBlocks, k, n);
    var at := TxsAt(maxBlocks, k, n);
    var hi := at + k * TX_SIZE;
    var m1 := Write(m, EntryAt(n), StructBytes(b, padding, pointer));
    var m2 := Write(m1, at, TxsBytes(b.transactions));
    var m3 := Write(m2, EntryAt(n) + 144, LE(at, 8));
    WriteInside(m1, at, TxsBytes(b.transactions), at, hi);
    WriteOutside(m2, EntryAt(n) + 144, LE(at, 8), at, hi);
    WriteOutside(m3, EntryAt(n) + 160, Int32(1), at, hi);
  }

  lemma StructFields(b: Block, padding: Bytes, pointer: nat)
    requires |padding| == 7
    ensures var s := StructBytes(b, padding, pointer);
            && s[..64] == b.txbId && s[64..129] == b.previousHash && s[136..144] == Int64(b.timestamp)
            && s[152..156] == Int32(b.nonce) && s[156..160] == Int32(|b.transactions|)
  {
    hide Int64, Int32, LE;
    var s := StructBytes(b, padding, pointer);
    assert s[..64] == b.txbId;
    assert s[64..129] == b.previousHash;
    assert s[136..144] == Int64(b.timestamp);
    assert s[152..156] == Int32(b.nonce);
    assert s[156..160] == Int32(|b.transactions|);
  }

  lemma EntryFields(e: Bytes, s: Bytes)
    requires |e| == ENTRY_SIZE && |s| == STRUCT_SIZE && e[..144] == s[..144] && e[152..160] == s[152..160]
    ensures e[..64] == s[..64] && e[64..129] == s[64..129] && e[136..144] == s[136..144]
    ensures e[152..156] == s[152..156] && e[156..160] == s[156..160]
  {
    SubSlice(e, 0, 144, 0, 64);
    SubSlice(s, 0, 144, 0, 64);
    SubSlice(e, 0, 144, 64, 129);
    SubSlice(s, 0, 144, 64, 129);
    SubSlice(e, 0, 144, 136, 144);
    SubSlice(s, 0, 144, 136, 144);
    SubSlice(e, 152, 160, 0, 4);
    SubSlice(s, 152, 160, 0, 4);
    SubSlice(e, 152, 160, 4, 8);
    SubSlice(s, 152, 160, 4, 8);
  }

  /** Reading the fields of an entry back. */
  lemma EntryDecodes(e: Bytes, b: Block, padding: Bytes, pointer: nat, at: nat)
    requires |e| == ENTRY_SIZE && |padding| == 7 && Sized(b) && at < TWO_64
    requires e[..144] == StructBytes(b, padding, pointer)[..144] && e[144..152] == LE(at, 8)
    requires e[152..160] == StructBytes(b, padding, pointer)[152..160] && e[160..164] == Int32(1)
    ensures Assemble(e, b.transactions) == b
    ensures PointerOf(e) == at && CountOf(e) == |b.transactions| && ValidOf(e) == 1
  {
    EntryFields(e, StructBytes(b, padding, pointer));
    StructFields(b, padding, pointer);
    SizedFacts(b);
    hide StructBytes, Sized, FromLE, LE, ToInt32, Int32, ToInt64, Int64, ToUint32;
    Int64RoundTrip(b.timestamp);
    Int32RoundTrip(b.nonce);
    Int32RoundTrip(|b.transactions|);
    Int32RoundTrip(1);
    Widths();
    LERoundTrip(at, 8);
  }

  /** The stored block is the appended one, field for field, and its pointer, count and flag are
      those of its own region. */
  lemma AppendStores(m: Bytes, maxBlocks: nat, k: nat, n: nat, b: Block, padding: Bytes, pointer: nat)
    requires FitsInt(maxBlocks, k) && |m| == SegmentSize(maxBlocks, k) < TWO_64 && n < maxBlocks
    requires |padding| == 7 && |b.transactions| == k && Sized(b)
    ensures var r := Append(m, maxBlocks, k, n, b, padding, pointer);
            BlockAt(r, maxBlocks, k, n) == b && EntryOk(r, maxBlocks, k, n)
  {
    hide StructBytes, EntryBytes, Append, EntryAt, TxsAt, SegmentSize, Assemble, PointerOf, CountOf, ValidOf, LE,
         Int32, Sized, ParseTxs, TxsBytes;
    Inside(maxBlocks, k, n);
    var at := TxsAt(maxBlocks, k, n);
    var r := Append(m, maxBlocks, k, n, b, padding, pointer);
    AppendEntry(m, maxBlocks, k, n, b, padding, pointer);
    AppendRegion(m, maxBlocks, k, n, b, padding, pointer);
    EntryDecodes(EntryBytes(r, n), b, padding, pointer, at);
    SizedFacts(b);
    ParseTxsBytes(b.transactions);
  }

  lemma SizedFacts(b: Block)
    requires Sized(b)
    ensures IsInt64(b.timestamp) && IsInt32(|b.transactions|)
    ensures forall i :: 0 <= i < |b.transactions| ==> SizedTx(b.transactions[i])
  {
  }

  /** Earlier blocks, and so their hashes, never change. */
  lemma AppendKeeps(m: Bytes, maxBlocks: nat, k: nat, n: nat, b: Block, padding: Bytes, pointer: nat, i: nat)
    requires FitsInt(maxBlocks, k) && |m| == SegmentSize(maxBlocks, k) && i < n < maxBlocks
    requires |padding| == 7 && |b.transactions| == k
    ensures var r := Append(m, maxBlocks, k, n, b, padding, pointer);
            BlockAt(r, maxBlocks, k, i) == BlockAt(m, maxBlocks, k, i)
            && (EntryOk(r, maxBlocks, k, i) <==> EntryOk(m, maxBlocks, k, i))
  {
    Layout(maxBlocks, k, i, n);
    Inside(maxBlocks, k, i);
    var at := TxsAt(maxBlocks, k, i);
    AppendOutside(m, maxBlocks, k, n, b, padding, pointer, EntryAt(i), EntryAt(i) + ENTRY_SIZE);
    AppendOutside(m, maxBlocks, k, n, b, padding, pointer, at, at + k * TX_SIZE);
    hide Append, TxsAt, ParseTxs, Assemble, PointerOf, CountOf, ValidOf;
  }

  lemma {:induction false} SameBlocksSameContents(a: Bytes, b: Bytes, maxBlocks: nat, k: nat, n: nat)
    requires FitsInt(maxBlocks, k) && |a| == |b| == SegmentSize(maxBlocks, k) && n <= maxBlocks
    requires forall i :: 0 <= i < n ==> BlockAt(a, maxBlocks, k, i) == BlockAt(b, maxBlocks, k, i)
    ensures Contents(a, maxBlocks, k, n) == Contents(b, maxBlocks, k, n)
  {
    hide BlockAt;
    if n > 0 {
      SameBlocksSameContents(a, b, maxBlocks, k, n - 1);
    }
  }

  lemma {:induction false} ContentsAt(m: Bytes, maxBlocks: nat, k: nat, n: nat, i: nat)
    requires FitsInt(maxBlocks, k) && |m| == SegmentSize(maxBlocks, k) && i < n <= maxBlocks
    ensures Contents(m, maxBlocks, k, n)[i] == BlockAt(m, maxBlocks, k, i)
  {
    hide BlockAt;
    if i < n - 1 {
      ContentsAt(m, maxBlocks, k, n - 1, i);
    }
  }

  lemma ContentsGrow(m: Bytes, maxBlocks: nat, k: nat, n: nat)
    requires FitsInt(maxBlocks, k) && |m| == SegmentSize(maxBlocks, k) && n < maxBlocks
    ensures Contents(m, maxBlocks, k, n + 1) == Contents(m, maxBlocks, k, n) + [BlockAt(m, maxBlocks, k, n)]
  {
  }

  ghost predicate EntriesOk(m: Bytes, maxBlocks: nat, k: nat, n: nat) {
    && FitsInt(maxBlocks, k) && |m| == SegmentSize(maxBlocks, k) && n <= maxBlocks
    && forall i :: 0 <= i < n ==> EntryOk(m, maxBlocks, k, i)
  }

  /** The four copies append one block to the sequence that the segment stands for. */
  lemma AppendRefines(m: Bytes, maxBlocks: nat, k: nat, n: nat, b: Block, padding: Bytes, pointer: nat)
    requires EntriesOk(m, maxBlocks, k, n) && |m| < TWO_64 && n < maxBlocks
    requires |padding| == 7 && |b.transactions| == k && Sized(b)
    ensures var r := Append(m, maxBlocks, k, n, b, padding, pointer);
            && EntriesOk(r, maxBlocks, k, n + 1)
            && Contents(r, maxBlocks, k, n + 1) == Contents(m, maxBlocks, k, n) + [b]
  {
    hide Append, BlockAt, EntryOk, Contents, Sized, SegmentSize;
    var r := Append(m, maxBlocks, k, n, b, padding, pointer);
    forall i | 0 <= i < n
      ensures BlockAt(r, maxBlocks, k, i) == BlockAt(m, maxBlocks, k, i)
      ensures EntryOk(r, maxBlocks, k, i)
    {
      AppendKeeps(m, maxBlocks, k, n, b, padding, pointer, i);
    }
    AppendStores(m, maxBlocks, k, n, b, padding, pointer);
    SameBlocksSameContents(m, r, maxBlocks, k, n);
    ContentsGrow(r, maxBlocks, k, n);
  }

  lemma OverflowAddresses(maxBlocks: nat, k: nat, n: nat)
    requires FitsInt(n + 1, k) && maxBlocks <= n
    ensures EntryAt(n) == TxsBase(maxBlocks) + (n - maxBlocks) * ENTRY_SIZE
    ensures TxsAt(maxBlocks, k, 0) == TxsBase(maxBlocks)
    ensures TxsAt(maxBlocks, k, n) >= SegmentSize(maxBlocks, k)
    ensures n == maxBlocks ==> TxsAt(maxBlocks, k, n) == SegmentSize(maxBlocks, k)
  {
    MulMonotone(maxBlocks, n, k);
    assert maxBlocks * (ENTRY_SIZE + k * TX_SIZE) == maxBlocks * ENTRY_SIZE + maxBlocks * k * TX_SIZE;
  }

  /** A copy as far as it lands inside the segment. */
  function Poke(m: Bytes, at: nat, src: Bytes): (r: Bytes)
    ensures |r| == |m|
  {
    seq(|m|, i requires 0 <= i < |m| => if at <= i < at + |src| then src[i - at] else m[i])
  }

  lemma PokeAt(m: Bytes, at: nat, src: Bytes, i: nat)
    requires i < |m|
    ensures Poke(m, at, src)[i] == if at <= i < at + |src| then src[i - at] else m[i]
  {
  }

  /** The four copies of an append at num_blocks == n when the ledger is full or overfull. */
  function Overflow(m: Bytes, maxBlocks: nat, k: nat, n: nat, b: Block, padding: Bytes, pointer: nat): (r: Bytes)
    requires FitsInt(n + 1, k) && maxBlocks <= n && |padding| == 7
    ensures |r| == |m| && TxsAt(maxBlocks, k, n) >= SegmentSize(maxBlocks, k)
  {
    OverflowAddresses(maxBlocks, k, n);
    var entry, at := EntryAt(n), TxsAt(maxBlocks, k, n);
    var m1 := Poke(m, entry, StructBytes(b, padding, pointer));
    var m2 := Poke(m1, at, TxsBytes(b.transactions));
    var m3 := Poke(m2, entry + 144, LE(at, 8));
    Poke(m3, entry + 160, Int32(1))
  }

  /** The bytes that an append stores in its entry: the struct with its own pointer, and the flag. */
  function NewEntry(at: nat, b: Block, padding: Bytes, pointer: nat): (e: Bytes)
    requires |padding| == 7
    ensures |e| == 164
  {
    var s := StructBytes(b, padding, pointer);
    s[..144] + LE(at, 8) + s[152..] + Int32(1)
  }

  lemma NewEntryAt(at: nat, b: Block, padding: Bytes, pointer: nat, i: nat)
    requires |padding| == 7 && i < 164
    ensures NewEntry(at, b, padding, pointer)[i] ==
      if i < 144 then StructBytes(b, padding, pointer)[i]
      else if i < 152 then LE(at, 8)[i - 144]
      else if i < 160 then StructBytes(b, padding, pointer)[i]
      else Int32(1)[i - 160]
  {
    hide StructBytes, LE, Int32;
  }

  lemma OverflowAt(m: Bytes, maxBlocks: nat, k: nat, n: nat, b: Block, padding: Bytes, pointer: nat, i: nat)
    requires FitsInt(n + 1, k) && maxBlocks <= n && |m| == SegmentSize(maxBlocks, k) && |padding| == 7 && i < |m|
    ensures var r, entry := Overflow(m, maxBlocks, k, n, b, padding, pointer), EntryAt(n);
            && (i < entry || entry + ENTRY_SIZE <= i ==> r[i] == m[i])
            && (entry + 164 <= i < entry + 168 ==> r[i] == m[i])
            && (entry <= i < entry + 164 ==>
                  r[i] == NewEntry(TxsAt(maxBlocks, k, n), b, padding, pointer)[i - entry])
  {
    hide StructBytes, TxsBytes, LE, Int32, Poke, EntryAt, SegmentSize, TxsAt, TxsBase, FitsInt, NewEntry;
    OverflowAddresses(maxBlocks, k, n);
    var entry, at := EntryAt(n), TxsAt(maxBlocks, k, n);
    if entry <= i < entry + 164 {
      NewEntryAt(at, b, padding, pointer, i - entry);
    }
    var m1 := Poke(m, entry, StructBytes(b, padding, pointer));
    var m2 := Poke(m1, at, TxsBytes(b.transactions));
    var m3 := Poke(m2, entry + 144, LE(at, 8));
    PokeAt(m, entry, StructBytes(b, padding, pointer), i);
    PokeAt(m1, at, TxsBytes(b.transactions), i);
    PokeAt(m2, entry + 144, LE(at, 8), i);
    PokeAt(m3, entry + 160, Int32(1), i);
  }

  /** Every append beyond the capacity, which only racing validators can make, writes its entry among the
      stored transactions, changes no entry and no byte beside it, and puts its own transactions, which
      its stored pointer names, outside the segment. */
  lemma OverflowHitsTransactions(m: Bytes, maxBlocks: nat, k: nat, n: nat, b: Block, padding: Bytes, pointer: nat)
    requires FitsInt(n + 1, k) && maxBlocks <= n && |m| == SegmentSize(maxBlocks, k) && |padding| == 7
    ensures TxsBase(maxBlocks) <= EntryAt(n) && SegmentSize(maxBlocks, k) <= TxsAt(maxBlocks, k, n)
    ensures var r := Overflow(m, maxBlocks, k, n, b, padding, pointer);
            && r[..TxsBase(maxBlocks)] == m[..TxsBase(maxBlocks)]
            && (forall i :: 0 <= i < |m| && (i < EntryAt(n) || EntryAt(n) + ENTRY_SIZE <= i) ==> r[i] == m[i])
            && (forall i :: EntryAt(n) <= i < EntryAt(n) + TXB_ID_LEN && i < |m| ==> r[i] == b.txbId[i - EntryAt(n)])
            && (forall i :: EntryAt(n) <= i < EntryAt(n) + 164 && i < |m| ==>
                  r[i] == NewEntry(TxsAt(maxBlocks, k, n), b, padding, pointer)[i - EntryAt(n)])
  {
    hide StructBytes, Overflow, TxsAt, SegmentSize, FitsInt, EntryAt, TxsBase, NewEntry;
    OverflowAddresses(maxBlocks, k, n);
    TxsInSegment(maxBlocks, k);
    StructFields(b, padding, pointer);
    var s, e := StructBytes(b, padding, pointer), NewEntry(TxsAt(maxBlocks, k, n), b, padding, pointer);
    forall i | 0 <= i < TXB_ID_LEN ensures e[i] == b.txbId[i] {
      NewEntryAt(TxsAt(maxBlocks, k, n), b, padding, pointer, i);
      assert s[i] == s[..64][i];
    }
    forall i | 0 <= i < |m|
      ensures var r := Overflow(m, maxBlocks, k, n, b, padding, pointer);
              && (i < EntryAt(n) || EntryAt(n) + ENTRY_SIZE <= i ==> r[i] == m[i])
              && (EntryAt(n) <= i < EntryAt(n) + 164 ==> r[i] == e[i - EntryAt(n)])
    {
      OverflowAt(m, maxBlocks, k, n, b, padding, pointer, i);
    }
  }

  lemma TxsInSegment(maxBlocks: nat, k: nat)
    ensures TxsBase(maxBlocks) + maxBlocks * k * TX_SIZE == SegmentSize(maxBlocks, k)
  {
    assert maxBlocks * (ENTRY_SIZE + k * TX_SIZE) == maxBlocks * ENTRY_SIZE + maxBlocks * k * TX_SIZE;
  }

  /** The first of them overwrites block 0: its first transaction takes its identifier from the new
      block's id, so that block 0 is no longer what was appended unless the two begin alike. */
  lemma OverflowHitsBlockZero(m: Bytes, maxBlocks: nat, k: nat, b: Block, padding: Bytes, pointer: nat)
    requires FitsInt(maxBlocks + 1, k) && |m| == SegmentSize(maxBlocks, k) && maxBlocks > 0 && k > 0 && |padding| == 7
    ensures var r := Overflow(m, maxBlocks, k, maxBlocks, b, padding, pointer);
            var before, after := BlockAt(m, maxBlocks, k, 0), BlockAt(r, maxBlocks, k, 0);
            && after.transactions[0].txId == b.txbId[..TX_ID_LEN]
            && (before.transactions[0].txId != b.txbId[..TX_ID_LEN] ==> after != before)
  {
    hide StructBytes, Overflow, ToInt32, ToUint32, ToInt64, TxsAt, SegmentSize, FitsInt, EntryBytes, EntryAt;
    OverflowAddresses(maxBlocks, k, maxBlocks);
    OverflowHitsTransactions(m, maxBlocks, k, maxBlocks, b, padding, pointer);
    FitsFewer(maxBlocks, k);
    Inside(maxBlocks, k, 0);
    var at, r := EntryAt(maxBlocks), Overflow(m, maxBlocks, k, maxBlocks, b, padding, pointer);
    var region := r[at..at + k * TX_SIZE];
    forall i | 0 <= i < TX_ID_LEN ensures region[..TX_SIZE][i] == b.txbId[i] {
      assert region[i] == r[at + i];
    }
    assert region[..TX_SIZE][..TX_ID_LEN] == b.txbId[..TX_ID_LEN];
    assert ParseTxs(region, k)[0] == ParseTx(region[..TX_SIZE]);
  }

  // ----- the segment -------------------------------------------------------------------------------

  /** The shared segment. `numBlocks` is its first field; `mem` is the segment's bytes. */
  class Ledger {
    const maxBlocks: nat
    const perBlock: nat
    const mem: array<byte>
    var numBlocks: nat

    ghost predicate Valid()
      reads this, mem
    {
      && maxBlocks > 0 && perBlock > 0 && mem.Length < TWO_64
      && EntriesOk(mem[..], maxBlocks, perBlock, numBlocks)
    }

    /** The sequence of blocks the segment stands for. */
    ghost function Blocks(): (bs: seq<Block>)
      reads this, mem
      requires Valid()
      ensures |bs| == numBlocks
    {
      Contents(mem[..], maxBlocks, perBlock, numBlocks)
    }

    /** init_ipc_resources. */
    constructor (config: Config)
      requires config.maxBlocks > 0 && config.perBlock > 0 && FitsInt(config.maxBlocks, config.perBlock)
      requires SegmentSize(config.maxBlocks, config.perBlock) < TWO_64
      ensures Valid() && fresh(mem) && Blocks() == []
      ensures maxBlocks == config.maxBlocks && perBlock == config.perBlock
    {
      maxBlocks, perBlock := config.maxBlocks, config.perBlock;
      numBlocks := 0;
      mem := new byte[SegmentSize(config.maxBlocks, config.perBlock)](_ => 0);
    }

    /** add_block_to_ledger by one validator alone: -1 and no change when full, otherwise the
        block is appended. `padding` and `pointer` are the bytes of the received struct that no
        field of the block accounts for. */
    method AddBlock(b: Block, padding: Bytes, pointer: nat) returns (r: int)
      requires Valid() && Sized(b) && |b.transactions| == perBlock && |padding| == 7
      modifies this`numBlocks, mem
      ensures Valid()
      ensures r == if old(numBlocks) < maxBlocks then 0 else -1
      ensures Blocks() == if r == 0 then old(Blocks()) + [b] else old(Blocks())
      ensures r == -1 ==> mem[..] == old(mem[..])
    {
      if numBlocks >= maxBlocks {
        return -1;
      }
      Store(b, padding, pointer);
      return 0;
    }

    /** The locked part of add_block_to_ledger. */
    method Store(b: Block, padding: Bytes, pointer: nat)
      requires Valid() && numBlocks < maxBlocks
      requires Sized(b) && |b.transactions| == perBlock && |padding| == 7
      modifies this`numBlocks, mem
      ensures Valid() && Blocks() == old(Blocks()) + [b]
    {
      hide Append, Contents, Sized, EntryOk, SegmentSize, FitsInt;
      ghost var m, n := mem[..], numBlocks;
      ghost var bs := Blocks();
      assert bs == Contents(m, maxBlocks, perBlock, n);
      AppendRefines(m, maxBlocks, perBlock, n, b, padding, pointer);
      CopyIn(b, padding, pointer);
      numBlocks := numBlocks + 1;
      assert EntriesOk(mem[..], maxBlocks, perBlock, numBlocks);
    }

    /** The four copies. */
    method CopyIn(b: Block, padding: Bytes, pointer: nat)
      requires FitsInt(maxBlocks, perBlock) && mem.Length == SegmentSize(maxBlocks, perBlock) && numBlocks < maxBlocks
      requires |b.transactions| == perBlock && |padding| == 7
      modifies mem
      ensures mem[..] == Append(old(mem[..]), maxBlocks, perBlock, numBlocks, b, padding, pointer)
    {
      Inside(maxBlocks, perBlock, numBlocks);
      var entry, target := EntryAt(numBlocks), TxsAt(maxBlocks, perBlock, numBlocks);
      hide StructBytes, TxsBytes, LE, Int32, EntryAt, TxsAt, SegmentSize, Write, FitsInt;
      CopyFour(entry, StructBytes(b, padding, pointer), target, TxsBytes(b.transactions), LE(target, 8), Int32(1));
    }

    method CopyFour(entry: nat, s: Bytes, target: nat, ts: Bytes, link: Bytes, flag: Bytes)
      requires |s| == STRUCT_SIZE && |link| == 8 && |flag| == 4
      requires entry + ENTRY_SIZE <= mem.Length && target + |ts| <= mem.Length
      modifies mem
      ensures mem[..] == Write(Write(Write(Write(old(mem[..]), entry, s), target, ts), entry + 144, link), entry + 160, flag)
    {
      hide Write;
      CopyTo(entry, s);
      CopyTo(target, ts);
      CopyTo(entry + 144, link);
      CopyTo(entry + 160, flag);
    }

    method CopyTo(at: nat, src: Bytes)
      requires at + |src| <= mem.Length
      modifies mem
      ensures mem[..] == Write(old(mem[..]), at, src)
    {
      ghost var m := mem[..];
      assert mem[..at] == m[..at] && mem[at + |src|..] == m[at + |src|..];
      Memcpy(mem, at, src);
    }

    /** A block as compute_sha256 reads it: count and transactions through the stored fields. */
    method Load(n: nat) returns (b: Block)
      requires Valid() && n < numBlocks
      ensures b == Blocks()[n]
    {
      hide Assemble, ParseTxs, Contents, FromLE, ToInt32;
      Inside(maxBlocks, perBlock, n);
      ContentsAt(mem[..], maxBlocks, perBlock, numBlocks, n);
      var at := EntryAt(n);
      var e := mem[at..at + ENTRY_SIZE];
      assert e == EntryBytes(mem[..], n) && EntryOk(mem[..], maxBlocks, perBlock, n);
      var pointer, count := PointerOf(e), CountOf(e);
      assert mem[pointer..pointer + count * TX_SIZE] == mem[..][pointer..pointer + count * TX_SIZE];
      b := Assemble(e, ParseTxs(mem[pointer..pointer + count * TX_SIZE], count));
    }

    /** The tip as a miner or a validator computes it under the ledger's mutex. */
    method TipHash(h: HashFn) returns (tip: HexHash)
      requires Valid()
      ensures tip == Tip(Hasher(h), Blocks())
      ensures tip == if numBlocks == 0 then INITIAL_HASH else HashHex(h, Blocks()[numBlocks - 1])
    {
      if numBlocks > 0 {
        var last := Load(numBlocks - 1);
        var output := ComputeSha256(h, last);
        tip := output[..HASH_SIZE - 1];
        assert tip == output[..][..HASH_SIZE - 1] == HashHex(h, last);
      } else {
        tip := INITIAL_HASH;
      }
    }

    /** dump_ledger: the blocks it would print, each with the transactions at the recomputed
        address. */
    method Dump() returns (blocks: seq<Block>)
      requires Valid()
      ensures blocks == Blocks()
    {
      hide Assemble, ParseTxs, FromLE, ToInt32;
      blocks := [];
      for i := 0 to numBlocks
        invariant blocks == Contents(mem[..], maxBlocks, perBlock, i)
      {
        Inside(maxBlocks, perBlock, i);
        var at := EntryAt(i);
        var e := mem[at..at + ENTRY_SIZE];
        assert e == EntryBytes(mem[..], i) && EntryOk(mem[..], maxBlocks, perBlock, i);
        if ValidOf(e) != 0 {
          var txs := TxsAt(maxBlocks, perBlock, i);
          assert mem[txs..txs + perBlock * TX_SIZE] == mem[..][txs..txs + perBlock * TX_SIZE];
          blocks := blocks + [Assemble(e, ParseTxs(mem[txs..txs + perBlock * TX_SIZE], perBlock))];
        }
      }
    }
  }
}
