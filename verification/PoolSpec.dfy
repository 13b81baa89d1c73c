/** What each critical section does to the pool's slots, as functions, and the laws that
    relate them. */
module PoolSpec {
  import opened Bytes
  import opened Data
  import opened Sums

  const AGE_STEP: nat := 50

  function LiveOne(s: Slot): int { if s.empty then 0 else 1 }

  function CountLive(slots: seq<Slot>): (n: nat)
    ensures n <= |slots|
  {
    SumWithin(slots, LiveOne);
    Sum(slots, LiveOne)
  }

  /** The number of slots that are not empty. */
  lemma {:induction false} CountLiveIsCardinality(slots: seq<Slot>)
    ensures CountLive(slots) == |set j | 0 <= j < |slots| && !slots[j].empty|
  {
    var live := set j | 0 <= j < |slots| && !slots[j].empty;
    if slots == [] {
      assert live == {};
    } else {
      var n := |slots| - 1;
      CountLiveIsCardinality(slots[..n]);
      var less := set j | 0 <= j < n && !slots[..n][j].empty;
      assert live == if slots[n].empty then less else less + {n};
    }
  }

  function Occupancy(slots: seq<Slot>): (percent: nat)
    requires |slots| > 0
  {
    CountLive(slots) * 100 / |slots|
  }

  /** The percentage, rounded down. */
  lemma OccupancyMeans(slots: seq<Slot>)
    requires |slots| > 0
    ensures var live := |set j | 0 <= j < |slots| && !slots[j].empty|;
            Occupancy(slots) * |slots| <= 100 * live < (Occupancy(slots) + 1) * |slots|
  {
    CountLiveIsCardinality(slots);
    hide CountLive;
    RoundedDown(CountLive(slots) * 100, |slots|);
  }

  lemma RoundedDown(a: nat, n: nat)
    requires n > 0
    ensures a / n * n <= a < (a / n + 1) * n
  {
  }

  /** Whole percentages lose nothing at the program's thresholds. */
  lemma Thresholds(percent: nat, live: nat, n: nat)
    requires percent * n <= 100 * live < (percent + 1) * n
    ensures percent >= 80 <==> 5 * live >= 4 * n
    ensures percent >= 60 <==> 5 * live >= 3 * n
    ensures percent <= 40 <==> 100 * live < 41 * n
  {
    ThresholdAt(percent, live, n, 80);
    ThresholdAt(percent, live, n, 60);
    ThresholdAt(percent, live, n, 41);
  }

  lemma ThresholdAt(percent: nat, live: nat, n: nat, at: nat)
    requires percent * n <= 100 * live < (percent + 1) * n
    ensures percent >= at <==> 100 * live >= at * n
  {
    if percent >= at {
      assert at * n <= percent * n;
    } else {
      assert (percent + 1) * n <= at * n;
    }
  }

  function Names(ts: seq<Transaction>): set<Bytes> { set t | t in ts :: Name(t) }

  predicate DistinctNames(ts: seq<Transaction>) {
    forall i, j :: 0 <= i < j < |ts| ==> Name(ts[i]) != Name(ts[j])
  }

  predicate AllNamed(ts: seq<Transaction>) {
    forall i :: 0 <= i < |ts| ==> Name(ts[i]) != []
  }

  /** No two slots hold the same transaction (slots never used have the empty name). */
  predicate UniqueNames(slots: seq<Slot>) {
    forall i, j :: 0 <= i < j < |slots| && Name(slots[i].tx) != [] ==> Name(slots[i].tx) != Name(slots[j].tx)
  }

  predicate UniqueLiveNames(slots: seq<Slot>) {
    forall i, j :: 0 <= i < j < |slots| && !slots[i].empty && !slots[j].empty ==>
      Name(slots[i].tx) != Name(slots[j].tx)
  }

  // ----- insert ------------------------------------------------------------------------

  function FirstEmpty(slots: seq<Slot>): (p: nat)
    ensures p <= |slots|
    ensures p < |slots| ==> slots[p].empty
    ensures forall j :: 0 <= j < p ==> !slots[j].empty
  {
    if slots == [] || slots[0].empty then 0 else 1 + FirstEmpty(slots[1..])
  }

  datatype InsertResult = Inserted | Full | Duplicate

  predicate IsLiveDuplicate(slots: seq<Slot>, position: nat, tx: Transaction) {
    exists j :: 0 <= j < |slots| && j != position && !slots[j].empty && Name(slots[j].tx) == Name(tx)
  }

  function Insert(slots: seq<Slot>, tx: Transaction): (r: (seq<Slot>, InsertResult))
    ensures |r.0| == |slots|
  {
    var p := FirstEmpty(slots);
    if p == |slots| then (slots, Full)
    else if IsLiveDuplicate(slots, p, tx) then (slots, Duplicate)
    else (slots[p := Slot(tx, false, 0)], Inserted)
  }

  /** add_transaction_to_pool: the first empty slot, if there is one and no live slot shows the identifier;
      nothing else changes. */
  lemma InsertIff(slots: seq<Slot>, tx: Transaction)
    ensures var (pool, r) := Insert(slots, tx);
            && (r == Full <==> forall j :: 0 <= j < |slots| ==> !slots[j].empty)
            && (r == Duplicate <==>
                  (&& (exists j :: 0 <= j < |slots| && slots[j].empty)
                   && (exists j :: 0 <= j < |slots| && !slots[j].empty && Name(slots[j].tx) == Name(tx))))
            && (r != Inserted ==> pool == slots)
            && (r == Inserted ==> forall j :: 0 <= j < |slots| ==>
                  pool[j] == if slots[j].empty && forall i :: 0 <= i < j ==> !slots[i].empty
                             then Slot(tx, false, 0) else slots[j])
  {
    hide Name;
    var p := FirstEmpty(slots);
    if p < |slots| {
      forall j | 0 <= j < |slots| && j != p ensures slots[j].empty ==> exists i :: 0 <= i < j && slots[i].empty {
      }
    }
  }

  // ----- reserve -----------------------------------------------------------------------

  predicate Indexes(chosen: seq<nat>, n: nat) {
    forall j :: 0 <= j < |chosen| ==> chosen[j] < n
  }

  predicate AlreadySelected(slots: seq<Slot>, chosen: seq<nat>, i: nat)
    requires i < |slots| && Indexes(chosen, |slots|)
  {
    exists j :: 0 <= j < |chosen| && Name(slots[chosen[j]].tx) == Name(slots[i].tx)
  }

  /** The slots chosen once the scan has passed the first n of them. */
  function Picked(slots: seq<Slot>, k: nat, n: nat): (p: seq<nat>)
    requires n <= |slots|
    ensures |p| <= k && Indexes(p, n)
    ensures forall j :: 0 <= j < |p| ==> !slots[p[j]].empty
  {
    if n == 0 then []
    else
      var p := Picked(slots, k, n - 1);
      if |p| < k && !slots[n - 1].empty && !AlreadySelected(slots, p, n - 1) then p + [n - 1] else p
  }

  function Mark(slots: seq<Slot>, chosen: seq<nat>): (r: seq<Slot>)
    ensures |r| == |slots|
  {
    seq(|slots|, j requires 0 <= j < |slots| =>
      if j in chosen then slots[j].(empty := true) else slots[j])
  }

  function Copies(slots: seq<Slot>, chosen: seq<nat>): (ts: seq<Transaction>)
    requires Indexes(chosen, |slots|)
    ensures |ts| == |chosen|
  {
    seq(|chosen|, j requires 0 <= j < |chosen| => slots[chosen[j]].tx)
  }

  /** select_transactions: all k transactions, or an untouched pool and nothing. */
  function Reserve(slots: seq<Slot>, k: nat): (r: (seq<Slot>, Option<seq<Transaction>>))
    ensures |r.0| == |slots|
    ensures r.1.Some? ==> |r.1.value| == k
    ensures r.1.None? ==> r.0 == slots
  {
    var p := Picked(slots, k, |slots|);
    if |p| == k then (Mark(slots, p), Some(Copies(slots, p))) else (slots, None)
  }

  // ----- return, remove, check, age --------------------------------------------------------

  function FirstMatch(slots: seq<Slot>, name: Bytes): (j: nat)
    ensures j <= |slots|
    ensures j < |slots| ==> Name(slots[j].tx) == name
    ensures forall i :: 0 <= i < j ==> Name(slots[i].tx) != name
  {
    if slots == [] || Name(slots[0].tx) == name then 0 else 1 + FirstMatch(slots[1..], name)
  }

  function MakeLive(s: Slot): Slot { s.(empty := false) }
  function MakeFree(s: Slot): Slot { s.(empty := true, age := 0) }

  /** The miner's form: every slot with one of the names. */
  function UpdateMatching(slots: seq<Slot>, names: set<Bytes>, f: Slot -> Slot): (r: seq<Slot>)
    ensures |r| == |slots|
  {
    seq(|slots|, i requires 0 <= i < |slots| =>
      if Name(slots[i].tx) in names then f(slots[i]) else slots[i])
  }

  /** The validator's form: for each transaction in turn, the first slot with its name. */
  function UpdateFirst(slots: seq<Slot>, ts: seq<Transaction>, f: Slot -> Slot): (r: seq<Slot>)
    ensures |r| == |slots|
  {
    if ts == [] then slots
    else
      var s := UpdateFirst(slots, ts[..|ts| - 1], f);
      var j := FirstMatch(s, Name(ts[|ts| - 1]));
      if j < |s| then s[j := f(s[j])] else s
  }

  function ReturnAll(slots: seq<Slot>, ts: seq<Transaction>): (r: seq<Slot>)
    ensures |r| == |slots|
  {
    UpdateMatching(slots, Names(ts), MakeLive)
  }

  function ReturnFirst(slots: seq<Slot>, ts: seq<Transaction>): (r: seq<Slot>)
    ensures |r| == |slots|
  {
    UpdateFirst(slots, ts, MakeLive)
  }

  function Remove(slots: seq<Slot>, ts: seq<Transaction>): (r: seq<Slot>)
    ensures |r| == |slots|
  {
    UpdateFirst(slots, ts, MakeFree)
  }

  /** How many leading transactions have a name and a slot. */
  function FoundPrefix(slots: seq<Slot>, ts: seq<Transaction>): (p: nat)
    ensures p <= |ts|
  {
    if ts == [] || Name(ts[0]) == [] || FirstMatch(slots, Name(ts[0])) == |slots| then 0
    else 1 + FoundPrefix(slots, ts[1..])
  }

  /** The validator's pool check: a refused block's found transactions go back to the pool. */
  function Check(slots: seq<Slot>, ts: seq<Transaction>): (r: (seq<Slot>, bool))
    ensures |r.0| == |slots|
    ensures r.1 ==> r.0 == slots
  {
    var p := FoundPrefix(slots, ts);
    if p == |ts| then (slots, true) else (ReturnFirst(slots, ts[..p]), false)
  }

  function AgeSlot(s: Slot): Slot {
    if s.empty then s
    else
      var age := s.age + 1;
      Slot(if age % AGE_STEP == 0 then s.tx.(reward := s.tx.reward + 1) else s.tx, false, age)
  }

  function AgeAll(slots: seq<Slot>): (r: seq<Slot>)
    ensures |r| == |slots|
  {
    seq(|slots|, i requires 0 <= i < |slots| => AgeSlot(slots[i]))
  }

  // ----- laws -------------------------------------------------------------------------------

  lemma CountLiveUpdate(slots: seq<Slot>, i: nat, s: Slot)
    requires i < |slots|
    ensures CountLive(slots[i := s]) == CountLive(slots) - LiveOne(slots[i]) + LiveOne(s)
  {
    SumUpdate(slots, i, s, LiveOne);
  }

  /** A successful insert makes exactly one more slot live. */
  lemma InsertAddsOne(slots: seq<Slot>, tx: Transaction)
    ensures CountLive(Insert(slots, tx).0) == CountLive(slots) + if Insert(slots, tx).1.Inserted? then 1 else 0
  {
    var p := FirstEmpty(slots);
    if p < |slots| {
      CountLiveUpdate(slots, p, Slot(tx, false, 0));
    }
  }

  lemma {:induction false} PickedStaysFull(slots: seq<Slot>, k: nat, i: nat, n: nat)
    requires i <= n <= |slots| && |Picked(slots, k, i)| == k
    ensures Picked(slots, k, n) == Picked(slots, k, i)
  {
    hide Name, AlreadySelected;
    if i < n {
      PickedStaysFull(slots, k, i, n - 1);
    }
  }

  /** The chosen transactions are pairwise different by name: the inner scan guarantees it even
      for a pool that holds duplicates. */
  lemma {:induction false} PickedAreDistinct(slots: seq<Slot>, k: nat, n: nat)
    requires n <= |slots|
    ensures DistinctNames(Copies(slots, Picked(slots, k, n)))
  {
    hide Name;
    if n > 0 {
      PickedAreDistinct(slots, k, n - 1);
      var q := Picked(slots, k, n - 1);
      var p := Picked(slots, k, n);
      if p != q {
        forall i, j | 0 <= i < j < |p| ensures Name(slots[p[i]].tx) != Name(slots[p[j]].tx) {
          if j < |q| {
            assert Copies(slots, q)[i] == slots[q[i]].tx && Copies(slots, q)[j] == slots[q[j]].tx;
          }
        }
      }
    }
  }

  lemma CountLivePrefix(slots: seq<Slot>, n: nat)
    requires n < |slots|
    ensures CountLive(slots[..n + 1]) == CountLive(slots[..n]) + LiveOne(slots[n])
  {
    assert slots[..n + 1] == slots[..n] + [slots[n]];
    SumAppend(slots[..n], slots[n], LiveOne);
  }

  /** A live slot with no live slot of the same name before it. */
  predicate FirstOfName(slots: seq<Slot>, j: nat)
    requires j < |slots|
  {
    !slots[j].empty && forall i :: 0 <= i < j && !slots[i].empty ==> Name(slots[i].tx) != Name(slots[j].tx)
  }

  /** How many of them are among the first n slots. */
  function Firsts(slots: seq<Slot>, n: nat): nat
    requires n <= |slots|
  {
    if n == 0 then 0 else Firsts(slots, n - 1) + if FirstOfName(slots, n - 1) then 1 else 0
  }

  lemma {:induction false} FirstsGrow(slots: seq<Slot>, m: nat, n: nat)
    requires m <= n <= |slots|
    ensures Firsts(slots, m) <= Firsts(slots, n)
    ensures m < n && FirstOfName(slots, m) ==> Firsts(slots, m) < Firsts(slots, n)
  {
    hide Name, FirstOfName;
    if m < n {
      FirstsGrow(slots, m, n - 1);
    }
  }

  lemma {:induction false} SomeFirst(slots: seq<Slot>, i: nat) returns (j: nat)
    requires i < |slots| && !slots[i].empty
    ensures j <= i && FirstOfName(slots, j) && Name(slots[j].tx) == Name(slots[i].tx)
  {
    hide Name;
    if FirstOfName(slots, i) {
      j := i;
    } else {
      var l: nat :| l < i && !slots[l].empty && Name(slots[l].tx) == Name(slots[i].tx);
      j := SomeFirst(slots, l);
    }
  }

  lemma SelectedIffSeen(slots: seq<Slot>, chosen: seq<nat>, n: nat)
    requires n < |slots| && Indexes(chosen, n) && forall j :: 0 <= j < |chosen| ==> !slots[chosen[j]].empty
    requires forall j :: 0 <= j < n && FirstOfName(slots, j) ==> j in chosen
    ensures !slots[n].empty && !AlreadySelected(slots, chosen, n) <==> FirstOfName(slots, n)
  {
    hide Name;
    if !slots[n].empty && !FirstOfName(slots, n) {
      var i: nat :| i < n && !slots[i].empty && Name(slots[i].tx) == Name(slots[n].tx);
      var j := SomeFirst(slots, i);
      var m :| 0 <= m < |chosen| && chosen[m] == j;
      assert Name(slots[chosen[m]].tx) == Name(slots[n].tx);
    }
  }

  lemma PickNext(slots: seq<Slot>, k: nat, n: nat)
    requires n < |slots| && |Picked(slots, k, n)| < k
    requires forall j :: 0 <= j < n && FirstOfName(slots, j) ==> j in Picked(slots, k, n)
    ensures Picked(slots, k, n + 1) == if FirstOfName(slots, n) then Picked(slots, k, n) + [n] else Picked(slots, k, n)
  {
    hide Name, FirstOfName, AlreadySelected;
    SelectedIffSeen(slots, Picked(slots, k, n), n);
  }

  /** The scan takes the first k slots that are the first live ones of their names, in index order. */
  lemma {:induction false} PickedAreFirsts(slots: seq<Slot>, k: nat, n: nat)
    requires n <= |slots|
    ensures |Picked(slots, k, n)| == if Firsts(slots, n) < k then Firsts(slots, n) else k
    ensures forall j :: 0 <= j < |slots| ==>
      (j in Picked(slots, k, n) <==> j < n && FirstOfName(slots, j) && Firsts(slots, j) < k)
    ensures forall j :: 0 <= j < n && FirstOfName(slots, j) && Firsts(slots, j) < k ==>
      Firsts(slots, j) < |Picked(slots, k, n)| && Picked(slots, k, n)[Firsts(slots, j)] == j
  {
    hide Name, FirstOfName, AlreadySelected, Picked;
    PickStarts(slots, k);
    if n > 0 {
      PickedAreFirsts(slots, k, n - 1);
      if |Picked(slots, k, n - 1)| < k {
        forall j | 0 <= j < n - 1 && FirstOfName(slots, j) ensures j in Picked(slots, k, n - 1) {
          FirstsGrow(slots, j, n - 1);
        }
        PickNext(slots, k, n - 1);
      } else {
        PickedStaysFull(slots, k, n - 1, n);
      }
    }
  }

  lemma PickStarts(slots: seq<Slot>, k: nat)
    ensures Picked(slots, k, 0) == []
  {
  }

  /** select_transactions, for any pool at all: it leaves the pool alone exactly when there are fewer than k
      different names among the live slots. Otherwise it takes the first k slots that are the first
      live ones of their names, in index order, and touches no other slot. */
  lemma ReserveTakesFirst(slots: seq<Slot>, k: nat)
    ensures Reserve(slots, k).1.None? <==> Firsts(slots, |slots|) < k
    ensures Reserve(slots, k).1.Some? ==> forall j :: 0 <= j < |slots| ==>
      Reserve(slots, k).0[j] ==
        if FirstOfName(slots, j) && Firsts(slots, j) < k then slots[j].(empty := true) else slots[j]
    ensures Reserve(slots, k).1.Some? ==>
      forall j :: 0 <= j < |slots| && FirstOfName(slots, j) && Firsts(slots, j) < k ==>
        Reserve(slots, k).1.value[Firsts(slots, j)] == slots[j].tx
  {
    hide Name, FirstOfName, Firsts;
    PickedAreFirsts(slots, k, |slots|);
  }

  /** Where live names are distinct every live slot is the first of its name. */
  lemma {:induction false} FirstsAreLive(slots: seq<Slot>, n: nat)
    requires n <= |slots| && UniqueLiveNames(slots)
    ensures Firsts(slots, n) == CountLive(slots[..n])
    ensures forall j :: 0 <= j < |slots| ==> (FirstOfName(slots, j) <==> !slots[j].empty)
  {
    hide Name, CountLive;
    if n == 0 {
      assert CountLive(slots[..0]) <= 0;
    } else {
      FirstsAreLive(slots, n - 1);
      CountLivePrefix(slots, n - 1);
    }
  }

  /** Then the scan falls short only when the whole pool does. */
  lemma PickedLength(slots: seq<Slot>, k: nat)
    requires UniqueLiveNames(slots)
    ensures |Picked(slots, k, |slots|)| == if CountLive(slots) < k then CountLive(slots) else k
  {
    hide Name, CountLive, Firsts, FirstOfName;
    PickedAreFirsts(slots, k, |slots|);
    FirstsAreLive(slots, |slots|);
    assert slots[..|slots|] == slots;
  }

  /** select_transactions reaches its rollback exactly when enough slots are live but some of them share
      their names. */
  lemma RollbackIff(slots: seq<Slot>, k: nat)
    ensures CountLive(slots) >= k && |Picked(slots, k, |slots|)| < k <==> Firsts(slots, |slots|) < k <= CountLive(slots)
    ensures UniqueLiveNames(slots) ==> !(Firsts(slots, |slots|) < k <= CountLive(slots))
  {
    hide Name, CountLive, Firsts, FirstOfName;
    PickedAreFirsts(slots, k, |slots|);
    if UniqueLiveNames(slots) {
      FirstsAreLive(slots, |slots|);
      assert slots[..|slots|] == slots;
    }
  }

  lemma {:induction false} MarkCounts(slots: seq<Slot>, k: nat, n: nat)
    requires n <= |slots|
    ensures CountLive(Mark(slots, Picked(slots, k, n))) == CountLive(slots) - |Picked(slots, k, n)|
  {
    hide Name;
    var p := Picked(slots, k, n);
    if n == 0 {
      assert Mark(slots, []) == slots;
    } else {
      MarkCounts(slots, k, n - 1);
      var q := Picked(slots, k, n - 1);
      if p != q {
        assert n - 1 !in q;
        assert Mark(slots, p) == Mark(slots, q)[n - 1 := slots[n - 1].(empty := true)];
        CountLiveUpdate(Mark(slots, q), n - 1, slots[n - 1].(empty := true));
      }
    }
  }

  /** A successful reserve makes exactly k fewer slots live. */
  lemma ReserveRemovesK(slots: seq<Slot>, k: nat)
    ensures Reserve(slots, k).1.Some? ==> CountLive(Reserve(slots, k).0) == CountLive(slots) - k
  {
    MarkCounts(slots, k, |slots|);
  }

  /** No earlier slot shows the same identifier. */
  predicate FirstOfItsName(slots: seq<Slot>, j: nat)
    requires j < |slots|
  {
    forall i :: 0 <= i < j ==> Name(slots[i].tx) != Name(slots[j].tx)
  }

  /** For any pool at all, duplicates included: the loops that stop at the first match change just the
      first slot of each of the transactions' identifiers. */
  lemma {:induction false} UpdateFirstAt(slots: seq<Slot>, ts: seq<Transaction>, f: Slot -> Slot)
    requires forall s {:trigger f(f(s))} :: f(f(s)) == f(s)
    requires forall s :: f(s).tx == s.tx
    ensures forall j :: 0 <= j < |slots| ==>
      UpdateFirst(slots, ts, f)[j] ==
        if Name(slots[j].tx) in Names(ts) && FirstOfItsName(slots, j) then f(slots[j]) else slots[j]
  {
    hide Name;
    if ts != [] {
      var n := |ts| - 1;
      UpdateFirstAt(slots, ts[..n], f);
      NamesSplit(ts);
      hide Names;
      var s := UpdateFirst(slots, ts[..n], f);
      assert forall j :: 0 <= j < |slots| ==> Name(s[j].tx) == Name(slots[j].tx);
      var m := FirstMatch(s, Name(ts[n]));
      forall j | 0 <= j < |slots| && Name(slots[j].tx) == Name(ts[n]) ensures FirstOfItsName(slots, j) <==> j == m {
        assert m <= j;
      }
    }
  }

  lemma UpdateFirstIsMatching(slots: seq<Slot>, ts: seq<Transaction>, f: Slot -> Slot)
    requires UniqueNames(slots) && AllNamed(ts)
    requires forall s :: f(s).tx == s.tx
    requires forall s {:trigger f(f(s))} :: f(f(s)) == f(s)
    ensures UpdateFirst(slots, ts, f) == UpdateMatching(slots, Names(ts), f)
  {
    hide Name, UpdateFirst;
    UpdateFirstAt(slots, ts, f);
    forall j | 0 <= j < |slots| && Name(slots[j].tx) in Names(ts) ensures FirstOfItsName(slots, j) {
    }
  }

  lemma ReturnFirstTouches(slots: seq<Slot>, ts: seq<Transaction>)
    ensures forall j :: 0 <= j < |slots| ==>
      var r := ReturnFirst(slots, ts)[j];
      (r == slots[j] || r == MakeLive(slots[j])) && (Name(slots[j].tx) !in Names(ts) ==> r == slots[j])
  {
    hide Name;
    UpdateFirstAt(slots, ts, MakeLive);
  }

  lemma RemoveTouches(slots: seq<Slot>, ts: seq<Transaction>)
    ensures forall j :: 0 <= j < |slots| ==>
      var r := Remove(slots, ts)[j];
      (r == slots[j] || r == MakeFree(slots[j])) && (Name(slots[j].tx) !in Names(ts) ==> r == slots[j])
  {
    hide Name;
    UpdateFirstAt(slots, ts, MakeFree);
  }

  lemma UpdateFirstAppend(slots: seq<Slot>, ts: seq<Transaction>, t: Transaction, f: Slot -> Slot)
    ensures var s := UpdateFirst(slots, ts, f);
            var j := FirstMatch(s, Name(t));
            UpdateFirst(slots, ts + [t], f) == if j < |s| then s[j := f(s[j])] else s
  {
    hide Name, FirstMatch;
    assert (ts + [t])[..|ts|] == ts;
  }

  lemma NamesSplit(ts: seq<Transaction>)
    requires ts != []
    ensures Names(ts) == Names(ts[..|ts| - 1]) + {Name(ts[|ts| - 1])}
  {
    hide Name;
    assert ts == ts[..|ts| - 1] + [ts[|ts| - 1]];
  }

  /** With unique names the miner's and the validators' ways of returning agree. */
  lemma ReturnFirstIsReturnAll(slots: seq<Slot>, ts: seq<Transaction>)
    requires UniqueNames(slots) && AllNamed(ts)
    ensures ReturnFirst(slots, ts) == ReturnAll(slots, ts)
  {
    UpdateFirstIsMatching(slots, ts, MakeLive);
  }

  lemma RemoveIsMatching(slots: seq<Slot>, ts: seq<Transaction>)
    requires UniqueNames(slots) && AllNamed(ts)
    ensures Remove(slots, ts) == UpdateMatching(slots, Names(ts), MakeFree)
  {
    UpdateFirstIsMatching(slots, ts, MakeFree);
  }

  lemma CopiesNameTheirSlots(slots: seq<Slot>, chosen: seq<nat>, i: nat)
    requires UniqueNames(slots) && i < |slots| && Indexes(chosen, |slots|)
    requires AllNamed(Copies(slots, chosen))
    ensures Name(slots[i].tx) in Names(Copies(slots, chosen)) <==> i in chosen
  {
    hide Name;
    var ts := Copies(slots, chosen);
    if i in chosen {
      var j :| 0 <= j < |chosen| && chosen[j] == i;
      assert ts[j] in ts;
    }
    if Name(slots[i].tx) in Names(ts) {
      var j :| 0 <= j < |ts| && Name(ts[j]) == Name(slots[i].tx);
      assert chosen[j] == i;
    }
  }

  lemma ReturnUndoesMark(slots: seq<Slot>, chosen: seq<nat>, names: set<Bytes>)
    requires forall i :: 0 <= i < |slots| ==> (Name(slots[i].tx) in names <==> i in chosen)
    requires forall i :: 0 <= i < |slots| && i in chosen ==> !slots[i].empty
    ensures UpdateMatching(Mark(slots, chosen), names, MakeLive) == slots
  {
    hide Name;
    var m := Mark(slots, chosen);
    forall i | 0 <= i < |slots| ensures UpdateMatching(m, names, MakeLive)[i] == slots[i] {
      if i in chosen {
        assert MakeLive(m[i]) == slots[i];
      } else {
        assert m[i] == slots[i];
      }
    }
  }

  /** An uninterrupted reserve followed by a return restores the pool. */
  lemma ReturnUndoesReserve(slots: seq<Slot>, k: nat)
    requires UniqueNames(slots)
    requires forall j :: 0 <= j < |slots| && !slots[j].empty ==> Name(slots[j].tx) != []
    requires Reserve(slots, k).1.Some?
    ensures ReturnAll(Reserve(slots, k).0, Reserve(slots, k).1.value) == slots
    ensures ReturnFirst(Reserve(slots, k).0, Reserve(slots, k).1.value) == slots
  {
    hide Name;
    var p := Picked(slots, k, |slots|);
    forall i | 0 <= i < |slots| ensures Name(slots[i].tx) in Names(Copies(slots, p)) <==> i in p {
      CopiesNameTheirSlots(slots, p, i);
    }
    ReturnUndoesMark(slots, p, Names(Copies(slots, p)));
    ReturnFirstIsReturnAll(Mark(slots, p), Copies(slots, p));
  }

  predicate HasSlot(slots: seq<Slot>, name: Bytes) {
    exists j :: 0 <= j < |slots| && Name(slots[j].tx) == name
  }

  lemma {:induction false} FoundPrefixMeaning(slots: seq<Slot>, ts: seq<Transaction>)
    ensures forall i :: 0 <= i < FoundPrefix(slots, ts) ==> Name(ts[i]) != [] && HasSlot(slots, Name(ts[i]))
    ensures FoundPrefix(slots, ts) < |ts| ==>
      var t := ts[FoundPrefix(slots, ts)];
      Name(t) == [] || !HasSlot(slots, Name(t))
  {
    hide Name, FirstMatch;
    if ts != [] && Name(ts[0]) != [] && FirstMatch(slots, Name(ts[0])) < |slots| {
      FoundPrefixMeaning(slots, ts[1..]);
      assert HasSlot(slots, Name(ts[0]));
      forall i | 0 <= i < FoundPrefix(slots, ts) ensures Name(ts[i]) != [] && HasSlot(slots, Name(ts[i])) {
        assert i > 0 ==> ts[i] == ts[1..][i - 1];
      }
    }
  }

  /** The pool check accepts exactly the blocks whose every transaction is named and held by
      some slot, live or not. */
  lemma CheckAcceptsIff(slots: seq<Slot>, ts: seq<Transaction>)
    ensures Check(slots, ts).1 <==>
      forall i :: 0 <= i < |ts| ==> Name(ts[i]) != [] && HasSlot(slots, Name(ts[i]))
  {
    hide Name;
    FoundPrefixMeaning(slots, ts);
  }

  // ----- returning and removing, slot by slot ----------------------------------------------

  /** The transactions' slots come back to life as they are ... */
  lemma ReturnFirstAt(slots: seq<Slot>, ts: seq<Transaction>)
    ensures forall j :: 0 <= j < |slots| ==>
      ReturnFirst(slots, ts)[j] ==
        if Name(slots[j].tx) in Names(ts) && forall i :: 0 <= i < j ==> Name(slots[i].tx) != Name(slots[j].tx)
        then Slot(slots[j].tx, false, slots[j].age) else slots[j]
  {
    hide Name;
    UpdateFirstAt(slots, ts, MakeLive);
    assert forall j :: 0 <= j < |slots| ==> MakeLive(slots[j]) == Slot(slots[j].tx, false, slots[j].age);
  }

  /** ... or are freed, with their age forgotten. */
  lemma RemoveFirstAt(slots: seq<Slot>, ts: seq<Transaction>)
    ensures forall j :: 0 <= j < |slots| ==>
      Remove(slots, ts)[j] ==
        if Name(slots[j].tx) in Names(ts) && forall i :: 0 <= i < j ==> Name(slots[i].tx) != Name(slots[j].tx)
        then Slot(slots[j].tx, true, 0) else slots[j]
  {
    hide Name;
    UpdateFirstAt(slots, ts, MakeFree);
    assert forall j :: 0 <= j < |slots| ==> MakeFree(slots[j]) == Slot(slots[j].tx, true, 0);
  }

  /** The miner's loop revives every slot with one of the identifiers. */
  lemma ReturnAllAt(slots: seq<Slot>, ts: seq<Transaction>)
    ensures forall j :: 0 <= j < |slots| ==>
      ReturnAll(slots, ts)[j] ==
        if exists i :: 0 <= i < |ts| && Name(ts[i]) == Name(slots[j].tx)
        then Slot(slots[j].tx, false, slots[j].age) else slots[j]
  {
    hide Name;
    forall j | 0 <= j < |slots|
      ensures Name(slots[j].tx) in Names(ts) <==> exists i :: 0 <= i < |ts| && Name(ts[i]) == Name(slots[j].tx)
    {
    }
    assert forall j :: 0 <= j < |slots| ==> MakeLive(slots[j]) == Slot(slots[j].tx, false, slots[j].age);
  }

  // ----- ageing --------------------------------------------------------------------------------

  function AgeTimes(slots: seq<Slot>, n: nat): (r: seq<Slot>)
    ensures |r| == |slots|
  {
    if n == 0 then slots else AgeAll(AgeTimes(slots, n - 1))
  }

  /** Each ageing adds one to the age of a live slot, each that reaches a multiple of 50 one to its reward,
      and nothing else changes. */
  lemma {:induction false} AgedTimes(slots: seq<Slot>, n: nat, j: nat)
    requires j < |slots|
    ensures var s, t := slots[j], AgeTimes(slots, n)[j];
            t == if s.empty then s
                 else Slot(s.tx.(reward := s.tx.reward + (s.age + n) / 50 - s.age / 50), false, s.age + n)
  {
    if n > 0 {
      AgedTimes(slots, n - 1, j);
      var s := slots[j];
      if !s.empty {
        assert (s.age + n) / 50 - (s.age + n - 1) / 50 == if (s.age + n) % 50 == 0 then 1 else 0;
      }
    }
  }

  /** One element at a time, an update that only revives slots never lowers the live count, and
      one that only frees slots never raises it. */
  lemma {:induction false} CountLiveMonotone(a: seq<Slot>, b: seq<Slot>)
    requires |a| == |b| && forall i :: 0 <= i < |a| ==> LiveOne(a[i]) <= LiveOne(b[i])
    ensures CountLive(a) <= CountLive(b)
  {
    if a != [] {
      var n := |a| - 1;
      CountLiveMonotone(a[..n], b[..n]);
    }
  }
}
