/** statistics.c: the running tallies per miner and the totals that are printed. Times are exact
    reals. */
module Statistics {
  import opened Sums

  datatype StatMsg = StatMsg(minerId: int, valid: bool, elapsed: real, rewards: int)

  datatype Tally = Tally(valid: nat, invalid: nat, credits: int, count: nat, average: real)

  const ZERO: Tally := Tally(0, 0, 0, 0, 0.0)

  function Times(n: nat, x: real): real { n as real * x }

  function Mean(total: real, n: nat): real
    requires n > 0
  {
    total / n as real
  }

  /** One accepted message: the average is turned back into a total and averaged again. */
  function RecordOne(t: Tally, m: StatMsg): Tally {
    Tally(if m.valid then t.valid + 1 else t.valid,
          if m.valid then t.invalid else t.invalid + 1,
          if m.valid then t.credits + m.rewards else t.credits,
          t.count + 1,
          Mean(Times(t.count, t.average) + m.elapsed, t.count + 1))
  }

  /** A miner id outside 1..n is ignored. */
  function Record(ts: seq<Tally>, m: StatMsg): (r: seq<Tally>)
    ensures |r| == |ts|
  {
    if 1 <= m.minerId <= |ts| then ts[m.minerId - 1 := RecordOne(ts[m.minerId - 1], m)] else ts
  }

  function Fold(n: nat, ms: seq<StatMsg>): (ts: seq<Tally>)
    ensures |ts| == n
  {
    if ms == [] then seq(n, _ => ZERO) else Record(Fold(n, ms[..|ms| - 1]), ms[|ms| - 1])
  }

  // ----- what the tallies mean ---------------------------------------------------------------

  function SumReal<T>(xs: seq<T>, f: T -> real): real {
    if xs == [] then 0.0 else SumReal(xs[..|xs| - 1], f) + f(xs[|xs| - 1])
  }

  lemma TimesZero(x: real)
    ensures Times(0, x) == 0.0
  {
  }

  lemma AverageTimesCount(t: Tally, m: StatMsg)
    ensures Times(RecordOne(t, m).count, RecordOne(t, m).average) == Times(t.count, t.average) + m.elapsed
  {
    var total := Times(t.count, t.average) + m.elapsed;
    var c := (t.count + 1) as real;
    assert c * (total / c) == total;
  }

  lemma {:induction false} FoldSums(n: nat, ms: seq<StatMsg>, id: int)
    requires 1 <= id <= n
    ensures var t := Fold(n, ms)[id - 1];
            && t.valid == Sum(ms, (m: StatMsg) => if m.minerId == id && m.valid then 1 else 0)
            && t.invalid == Sum(ms, (m: StatMsg) => if m.minerId == id && !m.valid then 1 else 0)
            && t.count == t.valid + t.invalid
            && t.credits == Sum(ms, (m: StatMsg) => if m.minerId == id && m.valid then m.rewards else 0)
            && Times(t.count, t.average) == SumReal(ms, (m: StatMsg) => if m.minerId == id then m.elapsed else 0.0)
  {
    hide Times, Mean;
    if ms == [] {
      TimesZero(0.0);
    } else {
      FoldSums(n, ms[..|ms| - 1], id);
      AverageTimesCount(Fold(n, ms[..|ms| - 1])[id - 1], ms[|ms| - 1]);
    }
  }

  /** After any messages, each miner's tally is exact: the average times the count is the sum of
      its elapsed times, the counts are those of its messages, the credits its valid rewards. */
  lemma FoldIsExact(n: nat, ms: seq<StatMsg>, id: int)
    requires 1 <= id <= n
    ensures var t := Fold(n, ms)[id - 1];
            && t.valid == Sum(ms, (m: StatMsg) => if m.minerId == id && m.valid then 1 else 0)
            && t.invalid == Sum(ms, (m: StatMsg) => if m.minerId == id && !m.valid then 1 else 0)
            && t.count == t.valid + t.invalid
            && t.credits == Sum(ms, (m: StatMsg) => if m.minerId == id && m.valid then m.rewards else 0)
            && t.count as real * t.average == SumReal(ms, (m: StatMsg) => if m.minerId == id then m.elapsed else 0.0)
  {
    hide Fold, SumReal, Sum;
    FoldSums(n, ms, id);
  }

  // ----- the printed totals ----------------------------------------------------------------------

  datatype Totals = Totals(valid: nat, invalid: nat, credits: int, time: real, blocks: nat)

  function Total(ts: seq<Tally>): Totals {
    if ts == [] then Totals(0, 0, 0, 0.0, 0)
    else
      var r, t := Total(ts[..|ts| - 1]), ts[|ts| - 1];
      Totals(r.valid + t.valid, r.invalid + t.invalid, r.credits + t.credits,
             if t.valid + t.invalid > 0 then r.time + Times(t.valid + t.invalid, t.average) else r.time,
             r.blocks + t.valid + t.invalid)
  }

  lemma TimesMeans(n: nat, x: real)
    ensures Times(n, x) == n as real * x && Times(0, x) == 0.0
  {
  }

  /** Each total is a sum over the miners. */
  lemma {:induction false} TotalSums(ts: seq<Tally>)
    ensures var t := Total(ts);
            && t.valid == Sum(ts, (x: Tally) => x.valid) && t.invalid == Sum(ts, (x: Tally) => x.invalid)
            && t.credits == Sum(ts, (x: Tally) => x.credits) && t.blocks == t.valid + t.invalid
            && t.time == SumReal(ts, (x: Tally) => (x.valid + x.invalid) as real * x.average)
  {
    hide Times;
    if ts != [] {
      TotalSums(ts[..|ts| - 1]);
      var t := ts[|ts| - 1];
      TimesMeans(t.valid + t.invalid, t.average);
    }
  }

  ghost predicate CountsAgree(ts: seq<Tally>) {
    forall i :: 0 <= i < |ts| ==> ts[i].count == ts[i].valid + ts[i].invalid
  }

  lemma {:induction false} TotalUpdate(ts: seq<Tally>, i: nat, m: StatMsg)
    requires i < |ts| && CountsAgree(ts)
    ensures var t, u := Total(ts), Total(ts[i := RecordOne(ts[i], m)]);
            u == Totals(if m.valid then t.valid + 1 else t.valid, if m.valid then t.invalid else t.invalid + 1,
                        if m.valid then t.credits + m.rewards else t.credits, t.time + m.elapsed, t.blocks + 1)
  {
    hide Times, Mean;
    var n := |ts| - 1;
    AverageTimesCount(ts[i], m);
    TimesZero(ts[i].average);
    if i == n {
      assert ts[i := RecordOne(ts[i], m)][..n] == ts[..n];
    } else {
      TotalUpdate(ts[..n], i, m);
      assert ts[i := RecordOne(ts[i], m)][..n] == ts[..n][i := RecordOne(ts[i], m)];
    }
  }

  lemma {:induction false} TotalOfZeros(n: nat)
    ensures Total(seq(n, _ => ZERO)) == Totals(0, 0, 0, 0.0, 0)
  {
    if n > 0 {
      assert seq(n, _ => ZERO)[..n - 1] == seq(n - 1, _ => ZERO);
      TotalOfZeros(n - 1);
    }
  }

  /** What is printed at the end, in terms of the messages: those of known miners are counted, by their
      validity, the rewards of the valid ones are added up, and total_time / total_blocks is the mean
      over all of them. */
  lemma {:induction false} TotalsOfMessages(n: nat, ms: seq<StatMsg>)
    ensures var t := Total(Fold(n, ms));
            && t.valid == Sum(ms, (m: StatMsg) => if 1 <= m.minerId <= n && m.valid then 1 else 0)
            && t.invalid == Sum(ms, (m: StatMsg) => if 1 <= m.minerId <= n && !m.valid then 1 else 0)
            && t.credits == Sum(ms, (m: StatMsg) => if 1 <= m.minerId <= n && m.valid then m.rewards else 0)
            && t.time == SumReal(ms, (m: StatMsg) => if 1 <= m.minerId <= n then m.elapsed else 0.0)
            && t.blocks == Sum(ms, (m: StatMsg) => if 1 <= m.minerId <= n then 1 else 0)
    ensures CountsAgree(Fold(n, ms))
  {
    hide Total, RecordOne;
    if ms == [] {
      TotalOfZeros(n);
    } else {
      var k := |ms| - 1;
      TotalsOfMessages(n, ms[..k]);
      if 1 <= ms[k].minerId <= n {
        TotalUpdate(Fold(n, ms[..k]), ms[k].minerId - 1, ms[k]);
        RecordedCount(Fold(n, ms[..k])[ms[k].minerId - 1], ms[k]);
      }
    }
  }

  lemma RecordedCount(t: Tally, m: StatMsg)
    requires t.count == t.valid + t.invalid
    ensures RecordOne(t, m).count == RecordOne(t, m).valid + RecordOne(t, m).invalid
  {
    hide Times, Mean;
  }

  // ----- arrival order ------------------------------------------------------------------------------

  lemma {:induction false} SumRealRemove(ms: seq<StatMsg>, f: StatMsg -> real, i: nat)
    requires i < |ms|
    ensures SumReal(ms, f) == SumReal(ms[..i] + ms[i + 1..], f) + f(ms[i])
  {
    var k := |ms| - 1;
    if i == k {
      assert ms[..i] + ms[i + 1..] == ms[..k];
    } else {
      SumRealRemove(ms[..k], f, i);
      var r := ms[..i] + ms[i + 1..];
      assert r[..k - 1] == ms[..k][..i] + ms[..k][i + 1..] && r[k - 1] == ms[k];
    }
  }

  lemma {:induction false} SumIntRemove(ms: seq<StatMsg>, f: StatMsg -> int, i: nat)
    requires i < |ms|
    ensures Sum(ms, f) == Sum(ms[..i] + ms[i + 1..], f) + f(ms[i])
  {
    var k := |ms| - 1;
    if i == k {
      assert ms[..i] + ms[i + 1..] == ms[..k];
    } else {
      SumIntRemove(ms[..k], f, i);
      var r := ms[..i] + ms[i + 1..];
      assert r[..k - 1] == ms[..k][..i] + ms[..k][i + 1..] && r[k - 1] == ms[k];
    }
  }

  lemma MultisetWithout(ms: seq<StatMsg>, i: nat)
    requires i < |ms|
    ensures multiset(ms[..i] + ms[i + 1..]) == multiset(ms) - multiset{ms[i]}
  {
    assert ms == ms[..i] + [ms[i]] + ms[i + 1..];
  }

  /** Sums do not depend on the order in which messages arrive. */
  lemma {:induction false} OrderIsIrrelevant(a: seq<StatMsg>, b: seq<StatMsg>, f: StatMsg -> real, g: StatMsg -> int)
    requires multiset(a) == multiset(b)
    ensures SumReal(a, f) == SumReal(b, f) && Sum(a, g) == Sum(b, g)
    decreases |a|
  {
    hide SumReal, Sum;
    if a == [] {
      assert |multiset(b)| == 0;
      assert b == [];
    } else {
      var k := |a| - 1;
      assert a[k] in multiset(b);
      var i :| 0 <= i < |b| && b[i] == a[k];
      MultisetWithout(a, k);
      MultisetWithout(b, i);
      assert a[..k] + a[k + 1..] == a[..k];
      OrderIsIrrelevant(a[..k], b[..i] + b[i + 1..], f, g);
      SumRealRemove(a, f, k);
      SumIntRemove(a, g, k);
      SumRealRemove(b, f, i);
      SumIntRemove(b, g, i);
    }
  }

  /** Whatever the arrival order, the whole table, and so everything printed, is the same. */
  lemma ArrivalOrderIsIrrelevant(n: nat, a: seq<StatMsg>, b: seq<StatMsg>)
    requires multiset(a) == multiset(b)
    ensures Fold(n, a) == Fold(n, b)
  {
    forall i | 0 <= i < n ensures Fold(n, a)[i] == Fold(n, b)[i] {
      var id := i + 1;
      FoldIsExact(n, a, id);
      FoldIsExact(n, b, id);
      var elapsed := (m: StatMsg) => if m.minerId == id then m.elapsed else 0.0;
      OrderIsIrrelevant(a, b, elapsed, (m: StatMsg) => if m.minerId == id && m.valid then 1 else 0);
      OrderIsIrrelevant(a, b, elapsed, (m: StatMsg) => if m.minerId == id && !m.valid then 1 else 0);
      OrderIsIrrelevant(a, b, elapsed, (m: StatMsg) => if m.minerId == id && m.valid then m.rewards else 0);
      AverageFromTotal(n, a, id);
      AverageFromTotal(n, b, id);
    }
  }

  /** An average is its total over its count (0 while there is none). */
  lemma {:induction false} AverageFromTotal(n: nat, ms: seq<StatMsg>, id: int)
    requires 1 <= id <= n
    ensures var t := Fold(n, ms)[id - 1];
            t.average == if t.count == 0 then 0.0 else Times(t.count, t.average) / t.count as real
  {
    if ms != [] {
      AverageFromTotal(n, ms[..|ms| - 1], id);
      var t := Fold(n, ms)[id - 1];
      if t.count > 0 {
        assert t.count as real * t.average / t.count as real == t.average;
      }
    }
  }

  // ----- the process ----------------------------------------------------------------------------------

  /** The five arrays of statistics_main. */
  class Collector {
    const numMiners: nat
    const validBlocks: array<nat>
    const invalidBlocks: array<nat>
    const averages: array<real>
    const counts: array<nat>
    const credits: array<int>

    ghost predicate Valid()
    {
      && validBlocks.Length == invalidBlocks.Length == averages.Length == counts.Length == credits.Length == numMiners
      && validBlocks != invalidBlocks && validBlocks != counts && invalidBlocks != counts
    }

    ghost function At(i: nat): Tally
      requires Valid() && i < numMiners
      reads validBlocks, invalidBlocks, averages, counts, credits
    {
      Tally(validBlocks[i], invalidBlocks[i], credits[i], counts[i], averages[i])
    }

    ghost function Tallies(): (ts: seq<Tally>)
      requires Valid()
      reads validBlocks, invalidBlocks, averages, counts, credits
      ensures |ts| == numMiners && forall i :: 0 <= i < numMiners ==> ts[i] == At(i)
    {
      seq(numMiners, i requires 0 <= i < numMiners
                       reads validBlocks, invalidBlocks, averages, counts, credits => At(i))
    }

    constructor (numMiners: nat)
      ensures Valid() && this.numMiners == numMiners && Tallies() == Fold(numMiners, [])
      ensures fresh(validBlocks) && fresh(invalidBlocks) && fresh(averages) && fresh(counts) && fresh(credits)
    {
      this.numMiners := numMiners;
      validBlocks := new nat[numMiners](_ => 0);
      invalidBlocks := new nat[numMiners](_ => 0);
      averages := new real[numMiners](_ => 0.0);
      counts := new nat[numMiners](_ => 0);
      credits := new int[numMiners](_ => 0);
    }

    /** The body of the receive loop. */
    method Receive(m: StatMsg)
      requires Valid()
      modifies validBlocks, invalidBlocks, averages, counts, credits
      ensures Tallies() == Record(old(Tallies()), m)
    {
      ghost var before := Tallies();
      var i := m.minerId - 1;
      if 0 <= i < numMiners {
        assert before[i] == At(i);
        if m.valid {
          validBlocks[i] := validBlocks[i] + 1;
          credits[i] := credits[i] + m.rewards;
        } else {
          invalidBlocks[i] := invalidBlocks[i] + 1;
        }
        var currentTotal := Times(counts[i], averages[i]);
        counts[i] := counts[i] + 1;
        averages[i] := Mean(currentTotal + m.elapsed, counts[i]);
        hide Times, Mean;
        assert At(i) == RecordOne(before[i], m);
        assert forall j :: 0 <= j < numMiners && j != i ==> At(j) == before[j];
      }
    }

    /** print_statistics: the totals accumulated while the miners are listed. */
    method PrintTotals() returns (t: Totals)
      requires Valid()
      ensures t == Total(Tallies())
      ensures var ts := Tallies();
              && t.valid == Sum(ts, (x: Tally) => x.valid) && t.invalid == Sum(ts, (x: Tally) => x.invalid)
              && t.credits == Sum(ts, (x: Tally) => x.credits) && t.blocks == t.valid + t.invalid
              && t.time == SumReal(ts, (x: Tally) => (x.valid + x.invalid) as real * x.average)
    {
      t := Totals(0, 0, 0, 0.0, 0);
      for i := 0 to numMiners
        invariant t == Total(Tallies()[..i])
      {
        assert Tallies()[..i + 1][..i] == Tallies()[..i];
        var n := validBlocks[i] + invalidBlocks[i];
        t := Totals(t.valid + validBlocks[i], t.invalid + invalidBlocks[i], t.credits + credits[i],
                    if n > 0 then t.time + n as real * averages[i] else t.time,
                    if n > 0 then t.blocks + n else t.blocks);
      }
      assert Tallies()[..numMiners] == Tallies();
      TotalSums(Tallies());
    }
  }
}
