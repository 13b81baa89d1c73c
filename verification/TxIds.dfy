/** generate_transaction (txgen.c): identifiers "TX-pid-counter" cut to 15 characters. */
module TxIds {
  import opened Bytes
  import opened Data

  const DASH: byte := 45

  function FullId(pid: nat, counter: nat): (s: Bytes)
    ensures |s| == 4 + |Dec(pid)| + |Dec(counter)|
    ensures 0 !in s
  {
    Ascii("TX-") + Dec(pid) + [DASH] + Dec(counter)
  }

  /** The identifier that other processes see: snprintf keeps 15 characters. */
  function IdText(pid: nat, counter: nat): (s: Bytes)
    ensures 0 < |s| < TX_ID_LEN && 0 !in s
  {
    var full := FullId(pid, counter);
    if |full| < TX_ID_LEN then full else full[..TX_ID_LEN - 1]
  }

  /** The 16-byte field: the text, a NUL, and whatever the stack held after it. */
  function IdField(pid: nat, counter: nat, stack: TxIdField): (f: TxIdField)
    ensures CString(f) == IdText(pid, counter)
    ensures forall i :: |IdText(pid, counter)| < i < 16 ==> f[i] == stack[i]
  {
    var t := IdText(pid, counter);
    CStringOfTerminated(t, stack[|t| + 1..]);
    t + [0] + stack[|t| + 1..]
  }

  /** The text as a reader takes it apart: "TX-", the process id, a dash, the counter. */
  lemma FullIdReads(pid: nat, counter: nat)
    ensures var s, i := FullId(pid, counter), 3 + |Dec(pid)|;
            && s[..3] == ['T' as int, 'X' as int, '-' as int] && s[i] == '-' as int
            && Number(s[3..i]) == pid && DASH !in s[3..i] && Number(s[i + 1..]) == counter
  {
    hide Dec, Number;
    var s, i := FullId(pid, counter), 3 + |Dec(pid)|;
    assert s[..3] == Ascii("TX-") && s[3..i] == Dec(pid) && s[i + 1..] == Dec(counter);
    DecReads(pid);
    DecReads(counter);
  }

  /** What fits into 16 bytes with its NUL is whole, anything longer is its first 15 characters. */
  lemma IdTextCut(pid: nat, counter: nat)
    ensures var s, full := IdText(pid, counter), FullId(pid, counter);
            && s == full[..|s|] && |s| == if |full| <= 15 then |full| else 15
  {
    hide FullId;
  }

  predicate Fits(pid: nat, counter: nat) {
    |Dec(pid)| + |Dec(counter)| <= 11
  }

  function BeforeDash(s: Bytes): Bytes {
    if s == [] || s[0] == DASH then [] else [s[0]] + BeforeDash(s[1..])
  }

  lemma {:induction false} DashSeparates(a: Bytes, b: Bytes)
    requires DASH !in a
    ensures BeforeDash(a + [DASH] + b) == a
  {
    var s := a + [DASH] + b;
    if a == [] {
      assert s[0] == DASH;
    } else {
      assert s[1..] == a[1..] + [DASH] + b;
      DashSeparates(a[1..], b);
    }
  }

  /** Identifiers that fit untruncated are told apart by pid and counter. */
  lemma IdsAreFresh(pid: nat, counter: nat, pid': nat, counter': nat)
    requires Fits(pid, counter) && Fits(pid', counter')
    requires IdText(pid, counter) == IdText(pid', counter')
    ensures pid == pid' && counter == counter'
  {
    var l, r := FullId(pid, counter), FullId(pid', counter');
    assert l[3..] == Dec(pid) + [DASH] + Dec(counter);
    assert r[3..] == Dec(pid') + [DASH] + Dec(counter');
    DashSeparates(Dec(pid), Dec(counter));
    DashSeparates(Dec(pid'), Dec(counter'));
    DecInjective(pid, pid');
    assert l[3..][|Dec(pid)| + 1..] == Dec(counter) && r[3..][|Dec(pid)| + 1..] == Dec(counter');
    DecInjective(counter, counter');
  }

  lemma {:induction false} DecLengthGrows(m: nat, n: nat)
    requires m <= n
    ensures |Dec(m)| <= |Dec(n)|
    decreases n
  {
    if m >= 10 {
      DecLengthGrows(m / 10, n / 10);
    }
  }

  lemma CutRepeats(pid: nat, d: nat)
    requires |Dec(pid)| <= 10 && !Fits(pid, d) && Fits(pid, d / 10)
    ensures d / 10 < d && IdText(pid, d / 10) == IdText(pid, d)
  {
    var c := d / 10;
    assert Dec(d) == Dec(c) + [48 + d % 10];
    assert FullId(pid, c) == FullId(pid, d)[..15];
  }

  /** The first identifier that is cut repeats the one of its counter without the last digit. */
  lemma {:induction false} FirstRepeat(pid: nat, n: nat) returns (c: nat, d: nat)
    requires |Dec(pid)| <= 10 && !Fits(pid, n)
    ensures c < d <= n && IdText(pid, c) == IdText(pid, d) && forall x: nat :: x < d ==> Fits(pid, x)
    decreases n
  {
    hide IdText;
    if x: nat :| x < n && !Fits(pid, x) {
      c, d := FirstRepeat(pid, x);
    } else {
      c, d := n / 10, n;
      CutRepeats(pid, n);
    }
  }

  ghost predicate DistinctUpTo(pid: nat, n: nat) {
    forall c: nat, d: nat :: c <= n && d <= n && IdText(pid, c) == IdText(pid, d) ==> c == d
  }

  /** Exactly when the first n + 1 identifiers of one generator are all different. A process
      id is an int, so it has at most ten digits. */
  lemma DistinctUpToIff(pid: nat, n: nat)
    requires |Dec(pid)| <= 10
    ensures DistinctUpTo(pid, n) <==> Fits(pid, n)
  {
    if Fits(pid, n) {
      forall c: nat, d: nat | c <= n && d <= n && IdText(pid, c) == IdText(pid, d) ensures c == d {
        DecLengthGrows(c, n);
        DecLengthGrows(d, n);
        IdsAreFresh(pid, c, pid, d);
      }
    } else {
      var c, d := FirstRepeat(pid, n);
    }
  }

  /** One generator process. `roll`, `value` and `now` stand for rand() and time(). */
  class Generator {
    const pid: nat
    var counter: nat

    constructor (pid: nat)
      ensures this.pid == pid && counter == 0
    {
      this.pid := pid;
      counter := 0;
    }

    method GenerateTransaction(reward: int, roll: nat, value: uint32, now: int, stack: TxIdField)
        returns (tx: Transaction)
      modifies this`counter
      ensures counter == old(counter) + 1
      ensures Name(tx) == IdText(pid, old(counter))
      ensures tx.reward == if 1 <= reward <= 3 then reward else 1 + roll % 3
      ensures tx.value == value && tx.timestamp == now
    {
      var txId := IdField(pid, counter, stack);
      counter := counter + 1;
      tx := Transaction(txId, if 1 <= reward <= 3 then reward else 1 + roll % 3, value, now);
    }
  }
}
