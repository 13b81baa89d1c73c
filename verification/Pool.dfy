/** The transaction pool in shared memory and the critical sections on it (txgen.c, miner.c,
    validator.c). Each method is what one process does between sem_wait and sem_post on the
    pool's mutex, proved against the function of PoolSpec that the protocol steps use. */
module Pool {
  import opened Bytes
  import opened Data
  import opened PoolSpec
  import opened Sums

  class TransactionPool {
    const slots: array<Slot>
    var occupancy: nat

    ghost predicate Valid() { slots.Length > 0 }

    /** init_ipc_resources: a fresh segment is zero, and every slot is marked empty. */
    constructor (poolSize: nat)
      requires poolSize > 0
      ensures Valid() && fresh(slots) && occupancy == 0
      ensures slots[..] == seq(poolSize, _ => Slot(ZERO_TX, true, 0))
    {
      slots := new Slot[poolSize](_ => Slot(ZERO_TX, true, 0));
      occupancy := 0;
    }

    method CountOccupied() returns (count: nat)
      ensures count == CountLive(slots[..])
    {
      count := 0;
      for i := 0 to slots.Length
        invariant count == CountLive(slots[..i])
      {
        assert slots[..i + 1] == slots[..i] + [slots[i]];
        SumAppend(slots[..i], slots[i], LiveOne);
        if !slots[i].empty {
          count := count + 1;
        }
      }
      assert slots[..slots.Length] == slots[..];
    }

    method UpdateOccupancy()
      requires Valid()
      modifies this`occupancy
      ensures occupancy == Occupancy(slots[..])
      ensures occupancy * slots.Length
        <= 100 * |set j | 0 <= j < slots.Length && !slots[j].empty| < (occupancy + 1) * slots.Length
    {
      var count := CountOccupied();
      occupancy := count * 100 / slots.Length;
      OccupancyMeans(slots[..]);
      assert (set j | 0 <= j < slots.Length && !slots[j].empty) == (set j | 0 <= j < |slots[..]| && !slots[..][j].empty);
    }

    /** add_transaction_to_pool, up to the post on work_notification_sem. */
    method AddTransaction(tx: Transaction) returns (r: InsertResult)
      requires Valid()
      modifies this`occupancy, slots
      ensures (slots[..], r) == Insert(old(slots[..]), tx)
      ensures occupancy == if r.Inserted? then Occupancy(slots[..]) else old(occupancy)
      ensures r.Inserted? ==>
        occupancy * slots.Length <= 100 * |set j | 0 <= j < slots.Length && !slots[j].empty| < (occupancy + 1) * slots.Length
    {
      hide Name;
      var position := 0;
      while position < slots.Length && !slots[position].empty
        invariant 0 <= position <= slots.Length
        invariant forall j :: 0 <= j < position ==> !slots[j].empty
      {
        position := position + 1;
      }
      assert position == FirstEmpty(slots[..]);
      if position == slots.Length {
        return Full;
      }
      for i := 0 to slots.Length
        invariant forall j :: 0 <= j < i && j != position && !slots[j].empty ==> Name(slots[j].tx) != Name(tx)
      {
        if i != position && !slots[i].empty && Name(slots[i].tx) == Name(tx) {
          assert slots[..][i] == slots[i];
          return Duplicate;
        }
      }
      slots[position] := Slot(tx, false, 0);
      UpdateOccupancy();
      return Inserted;
    }

    /** The inner scan of select_transactions. */
    method IsSelected(i: nat, selected: array<Transaction>, count: nat, ghost before: seq<Slot>, ghost chosen: seq<nat>)
        returns (already: bool)
      requires i < slots.Length == |before| && slots[i] == before[i] && Indexes(chosen, |before|)
      requires count <= selected.Length && selected[..count] == Copies(before, chosen)
      ensures already <==> AlreadySelected(before, chosen, i)
    {
      hide Name;
      for j := 0 to count
        invariant forall q :: 0 <= q < j ==> Name(before[chosen[q]].tx) != Name(before[i].tx)
      {
        assert selected[j] == selected[..count][j];
        if Name(slots[i].tx) == Name(selected[j]) {
          return true;
        }
      }
      return false;
    }

    /** The rollback branch of select_transactions, a critical section of its own: whatever the pool looks
        like by then, the recorded slots become live and no other changes. */
    method UndoReservations(indices: array<nat>, count: nat)
      requires count <= indices.Length && Indexes(indices[..count], slots.Length)
      modifies slots
      ensures slots[..] == Unmark(old(slots[..]), indices[..count])
    {
      for q := 0 to count
        invariant slots[..] == Unmark(old(slots[..]), indices[..q])
      {
        var j := indices[q];
        assert j == indices[..count][q];
        assert indices[..q + 1] == indices[..q] + [j];
        assert slots[j] == slots[..][j];
        slots[j] := slots[j].(empty := false);
      }
    }

    /** The selecting loop: copies live transactions out and marks their slots. */
    method Scan(k: nat, selected: array<Transaction>, indices: array<nat>) returns (count: nat)
      requires selected.Length == indices.Length == k
      modifies slots, selected, indices
      ensures var p := Picked(old(slots[..]), k, slots.Length);
              && count == |p| && indices[..count] == p
              && selected[..count] == Copies(old(slots[..]), p)
              && slots[..] == Mark(old(slots[..]), p)
    {
      hide Name, Mark, Copies, Picked;
      ghost var before := slots[..];
      PickStart(before, k);
      count := 0;
      var i := 0;
      while i < slots.Length && count < k
        invariant 0 <= i <= slots.Length && 0 <= count <= k
        invariant indices[..count] == Picked(before, k, i)
        invariant selected[..count] == Copies(before, Picked(before, k, i))
        invariant slots[..] == Mark(before, Picked(before, k, i))
      {
        PickStep(before, k, i);
        assert slots[..][i] == slots[i];
        if !slots[i].empty {
          var already := IsSelected(i, selected, count, before, Picked(before, k, i));
          if !already {
            selected[count], indices[count] := slots[i].tx, i;
            slots[i] := slots[i].(empty := true);
            count := count + 1;
          }
        }
        i := i + 1;
      }
      if count == k {
        PickedStaysFull(before, k, i, slots.Length);
      }
    }

    /** The first critical section of select_transactions: nothing at all when too few slots are live,
        otherwise the scan. */
    method CountAndScan(k: nat, selected: array<Transaction>, indices: array<nat>) returns (enough: bool, count: nat)
      requires selected.Length == indices.Length == k
      modifies slots, selected, indices
      ensures enough <==> CountLive(old(slots[..])) >= k
      ensures !enough ==> slots[..] == old(slots[..])
      ensures enough ==>
        var p := Picked(old(slots[..]), k, slots.Length);
        && count == |p| && indices[..count] == p
        && selected[..count] == Copies(old(slots[..]), p)
        && slots[..] == Mark(old(slots[..]), p)
    {
      hide Name, Mark, Copies, Picked;
      var available := CountOccupied();
      count := 0;
      enough := available >= k;
      if enough {
        count := Scan(k, selected, indices);
      }
    }

    /** select_transactions, when nobody comes between its two sections. */
    method SelectTransactions(k: nat) returns (r: Option<seq<Transaction>>)
      modifies slots
      ensures (slots[..], r) == Reserve(old(slots[..]), k)
    {
      ghost var before := slots[..];
      PickedAtMostLive(before, k, slots.Length);
      assert before[..slots.Length] == before;
      var selected := new Transaction[k](_ => ZERO_TX);
      var indices := new nat[k](_ => 0);
      var enough, count := CountAndScan(k, selected, indices);
      if !enough {
        return None;
      }
      if count == k {
        assert selected[..] == selected[..count];
        return Some(selected[..]);
      }
      UndoReservations(indices, count);
      UnmarkUndoesMark(before, Picked(before, k, |before|));
      return None;
    }

    /** The miner's return loops: every slot whose name is among the transactions'. */
    method ReturnTransactions(ts: seq<Transaction>)
      modifies slots
      ensures slots[..] == ReturnAll(old(slots[..]), ts)
    {
      hide Name;
      for i := 0 to slots.Length
        invariant forall q :: 0 <= q < i ==> slots[q] == ReturnAll(old(slots[..]), ts)[q]
        invariant forall q :: i <= q < slots.Length ==> slots[q] == old(slots[q])
      {
        var j := 0;
        while j < |ts| && Name(slots[i].tx) != Name(ts[j])
          invariant 0 <= j <= |ts|
          invariant forall q :: 0 <= q < j ==> Name(slots[i].tx) != Name(ts[q])
        {
          j := j + 1;
        }
        assert j < |ts| ==> ts[j] in ts;
        assert j < |ts| <==> Name(slots[i].tx) in Names(ts);
        assert slots[i] == old(slots[..])[i];
        if j < |ts| {
          slots[i] := slots[i].(empty := false);
          assert slots[i] == MakeLive(old(slots[..])[i]);
        }
      }
    }

    method FindByName(name: Bytes) returns (j: nat)
      ensures j == FirstMatch(slots[..], name)
    {
      j := 0;
      while j < slots.Length && Name(slots[j].tx) != name
        invariant 0 <= j <= slots.Length
        invariant forall q :: 0 <= q < j ==> Name(slots[q].tx) != name
      {
        j := j + 1;
      }
    }

    /** Fills `positions` with the slots of the leading transactions that have one. */
    method Locate(ts: seq<Transaction>, positions: array<int>) returns (found: nat)
      requires positions.Length == |ts| && forall q :: 0 <= q < |ts| ==> positions[q] == -1
      modifies positions
      ensures found == FoundPrefix(slots[..], ts)
      ensures forall q :: 0 <= q < found ==> positions[q] == FirstMatch(slots[..], Name(ts[q])) < slots.Length
      ensures forall q :: found <= q < |ts| ==> positions[q] == -1
    {
      hide Name;
      var i := 0;
      while i < |ts|
        invariant 0 <= i <= |ts|
        invariant FoundPrefix(slots[..], ts) == i + FoundPrefix(slots[..], ts[i..])
        invariant forall q :: 0 <= q < i ==> positions[q] == FirstMatch(slots[..], Name(ts[q])) < slots.Length
        invariant forall q :: i <= q < |ts| ==> positions[q] == -1
      {
        assert ts[i..][1..] == ts[i + 1..];
        if Name(ts[i]) == [] {
          return i;
        }
        var j := FindByName(Name(ts[i]));
        if j == slots.Length {
          return i;
        }
        positions[i] := j;
        i := i + 1;
      }
      return i;
    }

    /** The third part of validate_block: look every transaction up, and on failure give back
        the ones that were found. */
    method CheckTransactions(ts: seq<Transaction>) returns (valid: bool)
      modifies slots
      ensures (slots[..], valid) == Check(old(slots[..]), ts)
    {
      hide Name;
      ghost var before := slots[..];
      var positions := new int[|ts|](_ => -1);
      var found := Locate(ts, positions);
      valid := found == |ts|;
      if !valid {
        for q := 0 to |ts|
          invariant forall m :: 0 <= m < found ==> positions[m] == FirstMatch(before, Name(ts[m])) < slots.Length
          invariant forall m :: found <= m < |ts| ==> positions[m] == -1
          invariant slots[..] == ReturnFirst(before, ts[..if q < found then q else found])
        {
          if positions[q] != -1 {
            ReturnFirstStep(before, ts, q);
            slots[positions[q]] := slots[positions[q]].(empty := false);
          }
        }
      }
    }

    /** remove_transactions_from_pool. */
    method RemoveTransactions(ts: seq<Transaction>)
      requires Valid()
      modifies this`occupancy, slots
      ensures slots[..] == Remove(old(slots[..]), ts)
      ensures occupancy == Occupancy(slots[..])
      ensures occupancy * slots.Length
        <= 100 * |set j | 0 <= j < slots.Length && !slots[j].empty| < (occupancy + 1) * slots.Length
    {
      hide Name, Occupancy;
      for i := 0 to |ts|
        invariant slots[..] == Remove(old(slots[..]), ts[..i])
      {
        assert ts[..i + 1][..i] == ts[..i];
        var j := FindByName(Name(ts[i]));
        if j < slots.Length {
          slots[j] := slots[j].(empty := true, age := 0);
        }
      }
      assert ts[..|ts|] == ts;
      UpdateOccupancy();
    }

    /** validator_main, when the ledger was full. */
    method ReturnRefused(ts: seq<Transaction>)
      requires Valid()
      modifies this`occupancy, slots
      ensures slots[..] == ReturnFirst(old(slots[..]), ts)
      ensures occupancy == Occupancy(slots[..])
      ensures occupancy * slots.Length
        <= 100 * |set j | 0 <= j < slots.Length && !slots[j].empty| < (occupancy + 1) * slots.Length
    {
      hide Name, Occupancy;
      for i := 0 to |ts|
        invariant slots[..] == ReturnFirst(old(slots[..]), ts[..i])
      {
        assert ts[..i + 1][..i] == ts[..i];
        var j := FindByName(Name(ts[i]));
        if j < slots.Length {
          slots[j] := slots[j].(empty := false);
        }
      }
      assert ts[..|ts|] == ts;
      UpdateOccupancy();
    }

    /** age_transaction_pool; `lastUpdate` is the validator's static last_age_update. */
    method AgeTransactions(now: int, lastUpdate: int) returns (updated: int)
      modifies slots
      ensures slots[..] == if now <= lastUpdate then old(slots[..]) else AgeAll(old(slots[..]))
      ensures updated == if now <= lastUpdate then lastUpdate else now
      ensures forall j :: 0 <= j < slots.Length ==>
        var s := old(slots[j]);
        slots[j] == if now <= lastUpdate || s.empty then s
                    else Slot(s.tx.(reward := s.tx.reward + (s.age + 1) / 50 - s.age / 50), false, s.age + 1)
    {
      if now <= lastUpdate {
        return lastUpdate;
      }
      for i := 0 to slots.Length
        invariant forall q :: 0 <= q < i ==> slots[q] == AgeSlot(old(slots[q]))
        invariant forall q :: i <= q < slots.Length ==> slots[q] == old(slots[q])
      {
        if !slots[i].empty {
          slots[i] := slots[i].(age := slots[i].age + 1);
          if slots[i].age % AGE_STEP == 0 {
            slots[i] := slots[i].(tx := slots[i].tx.(reward := slots[i].tx.reward + 1));
          }
        }
      }
      return now;
    }
  }

  lemma {:induction false} PickedAtMostLive(slots: seq<Slot>, k: nat, n: nat)
    requires n <= |slots|
    ensures |Picked(slots, k, n)| <= CountLive(slots[..n])
  {
    if n > 0 {
      PickedAtMostLive(slots, k, n - 1);
      CountLivePrefix(slots, n - 1);
    }
  }

  lemma PickStart(slots: seq<Slot>, k: nat)
    ensures Picked(slots, k, 0) == [] && Copies(slots, []) == [] && Mark(slots, []) == slots
  {
  }

  lemma PickStep(slots: seq<Slot>, k: nat, i: nat)
    requires i < |slots| && |Picked(slots, k, i)| < k
    ensures var p, q := Picked(slots, k, i), Picked(slots, k, i + 1);
            && Mark(slots, p)[i] == slots[i]
            && if slots[i].empty || AlreadySelected(slots, p, i) then q == p
               else && q == p + [i]
                    && Mark(slots, q) == Mark(slots, p)[i := slots[i].(empty := true)]
                    && Copies(slots, q) == Copies(slots, p) + [slots[i].tx]
  {
    hide Name;
    assert i !in Picked(slots, k, i);
  }

  function Unmark(slots: seq<Slot>, chosen: seq<nat>): (r: seq<Slot>)
    ensures |r| == |slots|
  {
    seq(|slots|, j requires 0 <= j < |slots| =>
      if j in chosen then slots[j].(empty := false) else slots[j])
  }

  lemma UnmarkUndoesMark(slots: seq<Slot>, chosen: seq<nat>)
    requires Indexes(chosen, |slots|) && forall j :: 0 <= j < |chosen| ==> !slots[chosen[j]].empty
    ensures Unmark(Mark(slots, chosen), chosen) == slots
  {
    var m := Mark(slots, chosen);
    forall j | 0 <= j < |slots| ensures Unmark(m, chosen)[j] == slots[j] {
      assert m[j] == if j in chosen then slots[j].(empty := true) else slots[j];
    }
  }

  lemma ReturnFirstStep(slots: seq<Slot>, ts: seq<Transaction>, q: nat)
    requires q < |ts| && FirstMatch(slots, Name(ts[q])) < |slots|
    ensures var s := ReturnFirst(slots, ts[..q]);
            var j := FirstMatch(slots, Name(ts[q]));
            ReturnFirst(slots, ts[..q + 1]) == s[j := s[j].(empty := false)]
  {
    hide Name, FirstMatch, UpdateFirst;
    assert ts[..q + 1] == ts[..q] + [ts[q]];
    UpdateFirstAppend(slots, ts[..q], ts[q], MakeLive);
    ReturnFirstTouches(slots, ts[..q]);
    SameNamesSameMatch(slots, ReturnFirst(slots, ts[..q]), Name(ts[q]));
  }

  lemma {:induction false} SameNamesSameMatch(a: seq<Slot>, b: seq<Slot>, name: Bytes)
    requires |a| == |b| && forall i :: 0 <= i < |a| ==> a[i].tx == b[i].tx
    ensures FirstMatch(a, name) == FirstMatch(b, name)
  {
    hide Name;
    var i, j := FirstMatch(a, name), FirstMatch(b, name);
    assert i < |a| ==> Name(b[i].tx) == name;
    assert j < |b| ==> Name(a[j].tx) == name;
  }
}
