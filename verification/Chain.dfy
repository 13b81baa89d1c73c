/** The hash chain: what a tip is, what links to what, and what a tip hash pins down. */
module Chain {
  import opened Bytes
  import opened Data
  import opened Serialization
  import opened Pow

  /** compute_sha256 as seen by the ledger code: a name for every block. */
  type BlockHash = Block -> HexHash

  function Hasher(h: HashFn): BlockHash { b => HashHex(h, b) }

  const INITIAL_HASH: HexHash :=
    Ascii("00006a8e76f31ba7" + "4e21a092cca1015a" + "418c9d5f4375e7a4" + "fec676e1d2ec1436")

  lemma HexConcat(a: Bytes, b: Bytes)
    ensures Hex(a + b) == Hex(a) + Hex(b)
  {
    forall j | 0 <= j < 2 * |a + b| ensures Hex(a + b)[j] == (Hex(a) + Hex(b))[j] {
      assert j >= 2 * |a| ==> (a + b)[j / 2] == b[(j - 2 * |a|) / 2];
    }
  }

  lemma AsciiConcat(a: string, b: string)
    ensures Ascii(a + b) == Ascii(a) + Ascii(b)
  {
  }

  lemma FirstQuarter()
    ensures Hex([0, 0, 106, 142, 118, 243, 27, 167]) == Ascii("00006a8e76f31ba7")
  {
  }

  lemma SecondQuarter()
    ensures Hex([78, 33, 160, 146, 204, 161, 1, 90]) == Ascii("4e21a092cca1015a")
  {
  }

  lemma ThirdQuarter()
    ensures Hex([65, 140, 157, 95, 67, 117, 231, 164]) == Ascii("418c9d5f4375e7a4")
  {
  }

  lemma LastQuarter()
    ensures Hex([254, 198, 118, 225, 210, 236, 20, 54]) == Ascii("fec676e1d2ec1436")
  {
  }

  /** The fixed text is itself the hex form of 32 bytes, so that a block's hash could be it. */
  lemma InitialIsHex()
    ensures INITIAL_HASH == Hex([0, 0, 106, 142, 118, 243, 27, 167] + [78, 33, 160, 146, 204, 161, 1, 90]
                                + [65, 140, 157, 95, 67, 117, 231, 164] + [254, 198, 118, 225, 210, 236, 20, 54])
  {
    hide Hex, Ascii;
    FirstQuarter();
    SecondQuarter();
    ThirdQuarter();
    LastQuarter();
    var a: Bytes := [0, 0, 106, 142, 118, 243, 27, 167] + [78, 33, 160, 146, 204, 161, 1, 90];
    var b: Bytes := a + [65, 140, 157, 95, 67, 117, 231, 164];
    HexConcat([0, 0, 106, 142, 118, 243, 27, 167], [78, 33, 160, 146, 204, 161, 1, 90]);
    HexConcat(a, [65, 140, 157, 95, 67, 117, 231, 164]);
    HexConcat(b, [254, 198, 118, 225, 210, 236, 20, 54]);
    AsciiConcat("00006a8e76f31ba7", "4e21a092cca1015a");
    AsciiConcat("00006a8e76f31ba7" + "4e21a092cca1015a", "418c9d5f4375e7a4");
    AsciiConcat("00006a8e76f31ba7" + "4e21a092cca1015a" + "418c9d5f4375e7a4", "fec676e1d2ec1436");
  }

  /** The hash a new block has to name: the last block's, or the fixed one for the first block. */
  function Tip(hash: BlockHash, ledger: seq<Block>): HexHash {
    if ledger == [] then INITIAL_HASH else hash(ledger[|ledger| - 1])
  }

  /** A hash in the 65-byte field of a block. */
  function InField(s: HexHash): (f: HashField)
    ensures CString(f) == s
  {
    CStringOfTerminated(s, []);
    assert s + [0] + [] == s + [0];
    s + [0]
  }

  /** The strcmp of validate_block. */
  predicate Links(b: Block, tip: Bytes) { CString(b.previousHash) == tip }

  /** Block 0 names INITIAL_HASH and block i + 1 names the hash of block i. */
  ghost predicate IsChain(hash: BlockHash, ledger: seq<Block>) {
    forall i :: 0 <= i < |ledger| ==> Links(ledger[i], Tip(hash, ledger[..i]))
  }

  /** The block names INITIAL_HASH or the hash of some ledger block. */
  ghost predicate HasParent(hash: BlockHash, ledger: seq<Block>, b: Block) {
    exists j :: 0 <= j <= |ledger| && Links(b, Tip(hash, ledger[..j]))
  }

  /** Every block names INITIAL_HASH or the hash of some earlier block. */
  ghost predicate IsTree(hash: BlockHash, ledger: seq<Block>) {
    forall i :: 0 <= i < |ledger| ==> HasParent(hash, ledger[..i], ledger[i])
  }

  lemma PrefixOfAppend(ledger: seq<Block>, b: Block, i: nat)
    requires i <= |ledger|
    ensures (ledger + [b])[..i] == ledger[..i]
    ensures i < |ledger| ==> (ledger + [b])[i] == ledger[i]
  {
  }

  lemma ChainAppend(hash: BlockHash, ledger: seq<Block>, b: Block)
    ensures IsChain(hash, ledger + [b]) <==> IsChain(hash, ledger) && Links(b, Tip(hash, ledger))
  {
    var l := ledger + [b];
    forall i | 0 <= i <= |ledger|
      ensures l[..i] == ledger[..i] && (i < |ledger| ==> l[i] == ledger[i])
    {
      PrefixOfAppend(ledger, b, i);
    }
    assert ledger[..|ledger|] == ledger;
    if IsChain(hash, l) {
      assert Links(l[|ledger|], Tip(hash, l[..|ledger|]));
      forall i | 0 <= i < |ledger| ensures Links(ledger[i], Tip(hash, ledger[..i])) {
        assert Links(l[i], Tip(hash, l[..i]));
      }
    }
  }

  lemma HasParentGrows(hash: BlockHash, ledger: seq<Block>, more: Block, b: Block)
    requires HasParent(hash, ledger, b)
    ensures HasParent(hash, ledger + [more], b)
  {
    var j :| 0 <= j <= |ledger| && Links(b, Tip(hash, ledger[..j]));
    PrefixOfAppend(ledger, more, j);
  }

  lemma TreeAppend(hash: BlockHash, ledger: seq<Block>, b: Block)
    requires IsTree(hash, ledger) && HasParent(hash, ledger, b)
    ensures IsTree(hash, ledger + [b])
  {
    var l := ledger + [b];
    forall i | 0 <= i < |l| ensures HasParent(hash, l[..i], l[i]) {
      PrefixOfAppend(ledger, b, i);
      assert ledger[..|ledger|] == ledger;
      assert i < |ledger| ==> HasParent(hash, ledger[..i], ledger[i]);
    }
  }

  // ----- the tip hash determines the history -------------------------------------------------

  ghost predicate SomeClash(hash: BlockHash, a: seq<Block>, b: seq<Block>) {
    exists i, j :: 0 <= i < |a| && 0 <= j < |b| && a[i] != b[j] && hash(a[i]) == hash(b[j])
  }

  /** Some block's hash happens to be INITIAL_HASH itself. */
  ghost predicate HitsInitialHash(hash: BlockHash, a: seq<Block>) {
    exists i :: 0 <= i < |a| && hash(a[i]) == INITIAL_HASH
  }

  lemma HitExtends(hash: BlockHash, a: seq<Block>, x: Block)
    ensures HitsInitialHash(hash, a) ==> HitsInitialHash(hash, a + [x])
  {
    if HitsInitialHash(hash, a) {
      var i :| 0 <= i < |a| && hash(a[i]) == INITIAL_HASH;
      assert (a + [x])[i] == a[i];
    }
  }

  lemma ClashExtends(hash: BlockHash, a: seq<Block>, x: Block, b: seq<Block>, y: Block)
    ensures SomeClash(hash, a, b) ==> SomeClash(hash, a + [x], b + [y])
  {
    if SomeClash(hash, a, b) {
      var i, j :| 0 <= i < |a| && 0 <= j < |b| && a[i] != b[j] && hash(a[i]) == hash(b[j]);
      assert (a + [x])[i] == a[i] && (b + [y])[j] == b[j];
    }
  }

  /** Equal tips under different last blocks are a clash; a tip shared with the empty chain is a
      block that hashes to INITIAL_HASH. */
  lemma TipsOfDifferentBlocks(hash: BlockHash, a: seq<Block>, b: seq<Block>)
    requires Tip(hash, a) == Tip(hash, b)
    ensures a == [] && b != [] ==> HitsInitialHash(hash, b)
    ensures a != [] && b == [] ==> HitsInitialHash(hash, a)
    ensures a != [] && b != [] && a[|a| - 1] != b[|b| - 1] ==> SomeClash(hash, a, b)
  {
    hide INITIAL_HASH;
    assert b != [] ==> hash(b[|b| - 1]) == Tip(hash, b);
    assert a != [] ==> hash(a[|a| - 1]) == Tip(hash, a);
  }

  lemma {:induction false} TipDetermines(hash: BlockHash, a: seq<Block>, b: seq<Block>)
    requires IsChain(hash, a) && IsChain(hash, b) && Tip(hash, a) == Tip(hash, b)
    ensures || a == b
            || SomeClash(hash, a, b)
            || (|a| != |b| && (HitsInitialHash(hash, a) || HitsInitialHash(hash, b)))
  {
    hide IsChain, SomeClash, HitsInitialHash, Tip, INITIAL_HASH;
    TipsOfDifferentBlocks(hash, a, b);
    if a != [] && b != [] && a[|a| - 1] == b[|b| - 1] {
      var a', b', x := a[..|a| - 1], b[..|b| - 1], a[|a| - 1];
      assert a == a' + [x] && b == b' + [x];
      ChainAppend(hash, a', x);
      ChainAppend(hash, b', x);
      TipDetermines(hash, a', b');
      ClashExtends(hash, a', x, b', x);
      HitExtends(hash, a', x);
      HitExtends(hash, b', x);
    }
  }

  ghost predicate Collides(h: HashFn, a: Block, b: Block) {
    Serialize(a) != Serialize(b) && h(Serialize(a)) == h(Serialize(b))
  }

  lemma ClashIsCollision(h: HashFn, a: Block, b: Block)
    requires Sized(a) && Sized(b) && a != b && Hasher(h)(a) == Hasher(h)(b)
    ensures Collides(h, a, b)
  {
    HexInjective(h(Serialize(a)), h(Serialize(b)));
    if Serialize(a) == Serialize(b) {
      SerializeInjective(a, b);
    }
  }

  ghost predicate AllSized(a: seq<Block>) {
    forall i :: 0 <= i < |a| ==> Sized(a[i])
  }

  /** Two proper chains with the same tip hash are the same in every field of every block and
      transaction, unless two of their very blocks collide under the hash or, for chains of
      different lengths, one of their blocks hashes to INITIAL_HASH. */
  lemma TipDeterminesHistory(h: HashFn, a: seq<Block>, b: seq<Block>)
    requires IsChain(Hasher(h), a) && IsChain(Hasher(h), b) && AllSized(a) && AllSized(b)
    requires Tip(Hasher(h), a) == Tip(Hasher(h), b)
    ensures || a == b
            || (exists i, j :: 0 <= i < |a| && 0 <= j < |b| && Collides(h, a[i], b[j]))
            || (|a| != |b| && (HitsInitialHash(Hasher(h), a) || HitsInitialHash(Hasher(h), b)))
  {
    hide Collides;
    TipDetermines(Hasher(h), a, b);
    if SomeClash(Hasher(h), a, b) {
      var i, j :| 0 <= i < |a| && 0 <= j < |b| && a[i] != b[j] && Hasher(h)(a[i]) == Hasher(h)(b[j]);
      ClashIsCollision(h, a[i], b[j]);
    }
  }
}
