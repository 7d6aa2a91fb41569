/**
 * The weekday and hour-of-day profiles of one gear: consecutive pairs of
 * reduced samples (daily for the weekday profile, hourly for the hour-of-day
 * one) are charged to the slot of the earlier sample. A slot sums the
 * energy and start-count deltas and the on-time rates of its pairs, keeps
 * the voltage and frequency of its last pair, and at the end some of its
 * fields are divided by its pair count, which differs between the two
 * profiles.
 */
module Buckets {
  import opened Wrappers
  import opened Frame
  import opened Calendar

  /** One slot of a profile. Voltage and frequency stay absent in an hour slot nobody wrote. */
  datatype Bucket = Bucket(
    activeEnergy: real,
    apparentEnergy: real,
    loadsideEnergy: real,
    onTime: real,
    startCount: real,
    voltage: Option<real>,
    frequency: Option<real>,
    arc: real)

  /** Which profile: seven weekday slots (Sunday first) or twenty-four hour slots. */
  datatype Profile = Weekly | Hourly

  function Slots(p: Profile): nat {
    if p == Weekly then 7 else 24
  }

  /** The slot a pair is charged to: the weekday or the hour of day of its earlier sample. */
  function Slot(p: Profile, tz: int, r: Row): (b: nat)
    ensures b < Slots(p)
  {
    if p == Weekly then Weekday(tz, r.createdAt) else HourOfDay(tz, r.createdAt)
  }

  /** A fresh slot: all zero; the weekly one starts with a zero voltage and frequency, the hourly one with none. */
  function Init(p: Profile): Bucket {
    var none: Option<real> := if p == Weekly then Some(0.0) else None;
    Bucket(0.0, 0.0, 0.0, 0.0, 0.0, none, none, 0.0)
  }

  /**
   * `caculateOntimeRate`: the light source's on-time growth over the pair
   * as a percentage of the elapsed seconds, capped at 100.
   */
  function OnTimeRate(next: Row, cur: Row): real
    requires cur.createdAt < next.createdAt
  {
    var rate := 100.0 * (next.reading.lightSourceOnTime - cur.reading.lightSourceOnTime) / Seconds(cur.createdAt, next.createdAt);
    if rate < 100.0 then rate else 100.0
  }

  /** The rate never exceeds 100 and is the uncapped percentage whenever that is below 100. */
  lemma OnTimeRateBound(next: Row, cur: Row)
    requires cur.createdAt < next.createdAt
    ensures OnTimeRate(next, cur) <= 100.0
    ensures var secs := (next.createdAt - cur.createdAt) as real / 1000.0;
      secs > 0.0
      && OnTimeRate(next, cur) == (if 100.0 * (next.reading.lightSourceOnTime - cur.reading.lightSourceOnTime) <= 100.0 * secs
                                   then 100.0 * (next.reading.lightSourceOnTime - cur.reading.lightSourceOnTime) / secs
                                   else 100.0)
  {
    var secs := (next.createdAt - cur.createdAt) as real / 1000.0;
    var delta := 100.0 * (next.reading.lightSourceOnTime - cur.reading.lightSourceOnTime);
    assert Seconds(cur.createdAt, next.createdAt) == secs;
    if delta <= 100.0 * secs {
      assert delta / secs <= 100.0;
    } else {
      assert delta / secs > 100.0;
    }
  }

  /** 50 seconds more on-time over 100 seconds is a rate of 50. */
  lemma OnTimeRateSample(cur: Row, next: Row)
    requires next.createdAt == cur.createdAt + 100_000
    requires next.reading.lightSourceOnTime == cur.reading.lightSourceOnTime + 50.0
    ensures OnTimeRate(next, cur) == 50.0
  {
    assert Seconds(cur.createdAt, next.createdAt) == 100.0;
  }

  /**
   * Charging the pair (`cur`, `next`) to a slot: energies and start count
   * grow by their deltas and the on-time by the pair's rate; voltage and
   * frequency become those of `cur`; the weekly arc grows by `next`'s arc
   * level, the hourly arc becomes `cur`'s.
   */
  function Step(p: Profile, b: Bucket, cur: Row, next: Row): Bucket
    requires cur.createdAt < next.createdAt
  {
    Bucket(
      activeEnergy := b.activeEnergy + (next.reading.activeEnergy - cur.reading.activeEnergy),
      apparentEnergy := b.apparentEnergy + (next.reading.apparentEnergy - cur.reading.apparentEnergy),
      loadsideEnergy := b.loadsideEnergy + (next.reading.loadsideEnergy - cur.reading.loadsideEnergy),
      onTime := b.onTime + OnTimeRate(next, cur),
      startCount := b.startCount + (next.reading.lightSourceStartCount - cur.reading.lightSourceStartCount),
      voltage := Some(cur.reading.controlGearVoltage),
      frequency := Some(cur.reading.controlGearVoltageFrequence),
      arc := if p == Weekly then b.arc + next.deviceArc else cur.deviceArc)
  }

  /**
   * The final division of a slot with `count` pairs: the weekly profile
   * divides start count and arc, the hourly one on-time and arc; a slot
   * without pairs is left alone.
   */
  function Finish(p: Profile, b: Bucket, count: nat): Bucket {
    if count == 0 then b
    else if p == Weekly then b.(startCount := b.startCount / count as real, arc := b.arc / count as real)
    else b.(onTime := b.onTime / count as real, arc := b.arc / count as real)
  }

  /** Consecutive samples are strictly later. */
  predicate TimesIncrease(d: seq<Row>) {
    forall i :: 0 <= i < |d| - 1 ==> d[i].createdAt < d[i + 1].createdAt
  }

  /** The number of consecutive pairs. */
  function Pairs(d: seq<Row>): nat {
    if |d| == 0 then 0 else |d| - 1
  }

  /** The slots after charging the first `n` pairs. */
  function Acc(p: Profile, tz: int, d: seq<Row>, n: nat): (g: seq<Bucket>)
    requires TimesIncrease(d) && n <= Pairs(d)
    ensures |g| == Slots(p)
  {
    if n == 0 then seq(Slots(p), _ => Init(p))
    else
      var g := Acc(p, tz, d, n - 1);
      var b := Slot(p, tz, d[n - 1]);
      g[b := Step(p, g[b], d[n - 1], d[n])]
  }

  /** The pair counts of the slots after the first `n` pairs. */
  function Counts(p: Profile, tz: int, d: seq<Row>, n: nat): (c: seq<nat>)
    requires n <= Pairs(d)
    ensures |c| == Slots(p)
  {
    if n == 0 then seq(Slots(p), _ => 0)
    else
      var c := Counts(p, tz, d, n - 1);
      var b := Slot(p, tz, d[n - 1]);
      c[b := c[b] + 1]
  }

  /** The profile of time-ordered samples `d`. */
  function Group(p: Profile, tz: int, d: seq<Row>): (g: seq<Bucket>)
    requires TimesIncrease(d)
    ensures |g| == Slots(p)
  {
    var n := Pairs(d);
    var acc := Acc(p, tz, d, n);
    var c := Counts(p, tz, d, n);
    seq(Slots(p), b requires 0 <= b < Slots(p) => Finish(p, acc[b], c[b]))
  }

  /**
   * `groupWeekData` and `groupHourData`: charge every pair to its slot,
   * counting, then divide the slots that have pairs.
   */
  method GroupPairs(p: Profile, tz: int, d: seq<Row>) returns (g: seq<Bucket>)
    requires TimesIncrease(d)
    ensures g == Group(p, tz, d)
  {
    var groups, counters := ChargePairs(p, tz, d);
    g := DivideSlots(p, groups, counters);
  }

  /** The first loop: every consecutive pair is charged to the slot of its earlier sample. */
  method ChargePairs(p: Profile, tz: int, d: seq<Row>) returns (groups: seq<Bucket>, counters: seq<nat>)
    requires TimesIncrease(d)
    ensures groups == Acc(p, tz, d, Pairs(d)) && counters == Counts(p, tz, d, Pairs(d))
  {
    groups := seq(Slots(p), _ => Init(p));
    counters := seq(Slots(p), _ => 0);
    var i := 0;
    while i + 1 < |d|
      invariant i <= Pairs(d)
      invariant groups == Acc(p, tz, d, i) && counters == Counts(p, tz, d, i)
    {
      ghost var prev := i;
      var b := Slot(p, tz, d[i]);
      groups := groups[b := Step(p, groups[b], d[i], d[i + 1])];
      counters := counters[b := counters[b] + 1];
      i := i + 1;
      ChargeAcc(p, tz, d, prev);
      ChargeCount(p, tz, d, prev);
    }
  }

  /** Charging pair `i` takes the slots of the first `i` pairs to those of the first `i + 1`. */
  lemma ChargeAcc(p: Profile, tz: int, d: seq<Row>, i: nat)
    requires TimesIncrease(d) && i + 1 <= Pairs(d)
    ensures Acc(p, tz, d, i + 1) == Acc(p, tz, d, i)[Slot(p, tz, d[i]) := Step(p, Acc(p, tz, d, i)[Slot(p, tz, d[i])], d[i], d[i + 1])]
  {
  }

  /** ... and their pair counts. */
  lemma ChargeCount(p: Profile, tz: int, d: seq<Row>, i: nat)
    requires i + 1 <= Pairs(d)
    ensures Counts(p, tz, d, i + 1) == Counts(p, tz, d, i)[Slot(p, tz, d[i]) := Counts(p, tz, d, i)[Slot(p, tz, d[i])] + 1]
  {
  }

  /** The second loop: every slot with pairs is divided by its pair count. */
  method DivideSlots(p: Profile, acc: seq<Bucket>, counters: seq<nat>) returns (g: seq<Bucket>)
    requires |acc| == Slots(p) && |counters| == Slots(p)
    ensures g == seq(Slots(p), b requires 0 <= b < Slots(p) => Finish(p, acc[b], counters[b]))
  {
    var groups := acc;
    var j := 0;
    while j < Slots(p)
      invariant j <= Slots(p) && |groups| == Slots(p)
      invariant forall b :: 0 <= b < j ==> groups[b] == Finish(p, acc[b], counters[b])
      invariant forall b :: j <= b < Slots(p) ==> groups[b] == acc[b]
    {
      if counters[j] > 0 {
        var count := counters[j] as real;
        if p == Weekly {
          groups := groups[j := groups[j].(startCount := groups[j].startCount / count, arc := groups[j].arc / count)];
        } else {
          groups := groups[j := groups[j].(onTime := groups[j].onTime / count, arc := groups[j].arc / count)];
        }
      }
      j := j + 1;
    }
    g := groups;
  }

  // ---------------------------------------------------------------------------
  // What a profile holds

  function SumCounts(c: seq<nat>): nat {
    if c == [] then 0 else SumCounts(c[..|c| - 1]) + c[|c| - 1]
  }

  lemma {:induction false} SumCountsBump(c: seq<nat>, b: nat)
    requires b < |c|
    ensures SumCounts(c[b := c[b] + 1]) == SumCounts(c) + 1
    decreases |c|
  {
    var c' := c[b := c[b] + 1];
    assert c'[..|c| - 1] == if b < |c| - 1 then c[..|c| - 1][b := c[b] + 1] else c[..|c| - 1];
    if b < |c| - 1 {
      SumCountsBump(c[..|c| - 1], b);
    }
  }

  lemma {:induction false} SumCountsZero(n: nat)
    ensures SumCounts(seq(n, _ => 0)) == 0
  {
    if n > 0 {
      assert seq(n, _ => 0)[..n - 1] == seq(n - 1, _ => 0);
      SumCountsZero(n - 1);
    }
  }

  /** Every pair is counted in exactly one slot: the counts add up to the number of pairs. */
  lemma {:induction false} CountsTotal(p: Profile, tz: int, d: seq<Row>, n: nat)
    requires n <= Pairs(d)
    ensures SumCounts(Counts(p, tz, d, n)) == n
  {
    if n == 0 {
      SumCountsZero(Slots(p));
    } else {
      CountsTotal(p, tz, d, n - 1);
      SumCountsBump(Counts(p, tz, d, n - 1), Slot(p, tz, d[n - 1]));
    }
  }

  /** The sum of one field over the slots. */
  function Total(g: seq<Bucket>, f: Bucket -> real): real {
    if g == [] then 0.0 else Total(g[..|g| - 1], f) + f(g[|g| - 1])
  }

  lemma {:induction false} TotalUpdate(g: seq<Bucket>, b: nat, x: Bucket, f: Bucket -> real)
    requires b < |g|
    ensures Total(g[b := x], f) == Total(g, f) - f(g[b]) + f(x)
    decreases |g|
  {
    var g' := g[b := x];
    if b < |g| - 1 {
      assert g'[..|g| - 1] == g[..|g| - 1][b := x];
      TotalUpdate(g[..|g| - 1], b, x, f);
    } else {
      assert g'[..|g| - 1] == g[..|g| - 1];
    }
  }

  lemma {:induction false} TotalZero(n: nat, x: Bucket, f: Bucket -> real)
    requires f(x) == 0.0
    ensures Total(seq(n, _ => x), f) == 0.0
  {
    if n > 0 {
      assert seq(n, _ => x)[..n - 1] == seq(n - 1, _ => x);
      TotalZero(n - 1, x, f);
    }
  }

  function ActiveEnergy(b: Bucket): real { b.activeEnergy }
  function ApparentEnergy(b: Bucket): real { b.apparentEnergy }
  function LoadsideEnergy(b: Bucket): real { b.loadsideEnergy }
  function StartCount(b: Bucket): real { b.startCount }

  /**
   * The deltas telescope: over all slots, the charged energies and start
   * count are the growth from the first sample to the one after the last
   * charged pair.
   */
  lemma {:induction false} Telescopes(p: Profile, tz: int, d: seq<Row>, n: nat)
    requires TimesIncrease(d) && |d| > 0 && n <= Pairs(d)
    ensures var g := Acc(p, tz, d, n);
      && Total(g, ActiveEnergy) == d[n].reading.activeEnergy - d[0].reading.activeEnergy
      && Total(g, ApparentEnergy) == d[n].reading.apparentEnergy - d[0].reading.apparentEnergy
      && Total(g, LoadsideEnergy) == d[n].reading.loadsideEnergy - d[0].reading.loadsideEnergy
      && Total(g, StartCount) == d[n].reading.lightSourceStartCount - d[0].reading.lightSourceStartCount
  {
    if n == 0 {
      TotalZero(Slots(p), Init(p), ActiveEnergy);
      TotalZero(Slots(p), Init(p), ApparentEnergy);
      TotalZero(Slots(p), Init(p), LoadsideEnergy);
      TotalZero(Slots(p), Init(p), StartCount);
    } else {
      Telescopes(p, tz, d, n - 1);
      var g := Acc(p, tz, d, n - 1);
      var b := Slot(p, tz, d[n - 1]);
      var x := Step(p, g[b], d[n - 1], d[n]);
      TotalUpdate(g, b, x, ActiveEnergy);
      TotalUpdate(g, b, x, ApparentEnergy);
      TotalUpdate(g, b, x, LoadsideEnergy);
      TotalUpdate(g, b, x, StartCount);
    }
  }

  /** Two slot lists that agree on a field, slot by slot, have the same total of it. */
  lemma {:induction false} TotalSame(g: seq<Bucket>, h: seq<Bucket>, f: Bucket -> real)
    requires |g| == |h|
    requires forall b :: 0 <= b < |g| ==> f(g[b]) == f(h[b])
    ensures Total(g, f) == Total(h, f)
    decreases |g|
  {
    if g != [] {
      TotalSame(g[..|g| - 1], h[..|h| - 1], f);
    }
  }

  /** The division at the end leaves the energies alone, and in the hourly profile the start count too. */
  lemma FinishKeeps(p: Profile, tz: int, d: seq<Row>)
    requires TimesIncrease(d)
    ensures var acc := Acc(p, tz, d, Pairs(d));
      var g := Group(p, tz, d);
      && Total(g, ActiveEnergy) == Total(acc, ActiveEnergy)
      && Total(g, ApparentEnergy) == Total(acc, ApparentEnergy)
      && Total(g, LoadsideEnergy) == Total(acc, LoadsideEnergy)
      && (p == Hourly ==> Total(g, StartCount) == Total(acc, StartCount))
  {
    var acc := Acc(p, tz, d, Pairs(d));
    var g := Group(p, tz, d);
    var c := Counts(p, tz, d, Pairs(d));
    assert forall b :: 0 <= b < |g| ==> g[b] == Finish(p, acc[b], c[b]);
    TotalSame(g, acc, ActiveEnergy);
    TotalSame(g, acc, ApparentEnergy);
    TotalSame(g, acc, LoadsideEnergy);
    if p == Hourly {
      TotalSame(g, acc, StartCount);
    }
  }

  /**
   * Energy is conserved: summed over the slots of either profile, each energy
   * is the last sample's reading minus the first's; the hourly profile, which
   * does not divide its start count, conserves that too.
   */
  lemma GroupTotals(p: Profile, tz: int, d: seq<Row>)
    requires TimesIncrease(d) && |d| > 0
    ensures var g := Group(p, tz, d);
      && Total(g, ActiveEnergy) == d[|d| - 1].reading.activeEnergy - d[0].reading.activeEnergy
      && Total(g, ApparentEnergy) == d[|d| - 1].reading.apparentEnergy - d[0].reading.apparentEnergy
      && Total(g, LoadsideEnergy) == d[|d| - 1].reading.loadsideEnergy - d[0].reading.loadsideEnergy
      && (p == Hourly ==>
            Total(g, StartCount) == d[|d| - 1].reading.lightSourceStartCount - d[0].reading.lightSourceStartCount)
  {
    Telescopes(p, tz, d, Pairs(d));
    FinishKeeps(p, tz, d);
  }

  /**
   * A slot no pair was charged to is still fresh; a slot with pairs holds
   * the voltage and frequency of the earlier sample of its last pair, and in
   * the hourly profile that sample's arc level too.
   */
  lemma {:induction false} LastWrite(p: Profile, tz: int, d: seq<Row>, n: nat, b: nat)
    requires TimesIncrease(d) && n <= Pairs(d) && b < Slots(p)
    ensures Counts(p, tz, d, n)[b] == 0 ==> Acc(p, tz, d, n)[b] == Init(p)
    ensures Counts(p, tz, d, n)[b] > 0 ==> exists i :: WrittenBy(p, tz, d, n, b, i)
  {
    if n > 0 {
      var m := n - 1;
      LastWrite(p, tz, d, m, b);
      ChargeAcc(p, tz, d, m);
      ChargeCount(p, tz, d, m);
      assert m + 1 == n;
      if Slot(p, tz, d[m]) == b {
        assert Acc(p, tz, d, n)[b] == Step(p, Acc(p, tz, d, m)[b], d[m], d[n]);
        assert WrittenBy(p, tz, d, n, b, m);
      } else {
        assert Acc(p, tz, d, n)[b] == Acc(p, tz, d, m)[b] && Counts(p, tz, d, n)[b] == Counts(p, tz, d, m)[b];
        if Counts(p, tz, d, m)[b] > 0 {
          var i :| WrittenBy(p, tz, d, m, b, i);
          assert WrittenBy(p, tz, d, n, b, i);
        }
      }
    }
  }

  /**
   * Sample `i` is the earlier sample of the last of the first `n` pairs
   * charged to slot `b`, and the slot holds its voltage and frequency (and,
   * hourly, its arc level).
   */
  predicate WrittenBy(p: Profile, tz: int, d: seq<Row>, n: nat, b: nat, i: int)
    requires TimesIncrease(d) && n <= Pairs(d) && b < Slots(p)
  {
    && 0 <= i < n && Slot(p, tz, d[i]) == b
    && Acc(p, tz, d, n)[b].voltage == Some(d[i].reading.controlGearVoltage)
    && Acc(p, tz, d, n)[b].frequency == Some(d[i].reading.controlGearVoltageFrequence)
    && (p == Hourly ==> Acc(p, tz, d, n)[b].arc == d[i].deviceArc)
    && forall i' :: i < i' < n ==> Slot(p, tz, d[i']) != b
  }

  /** An empty slot of the result is fresh: all zero, with a zero or absent voltage and frequency. */
  lemma EmptySlot(p: Profile, tz: int, d: seq<Row>, b: nat)
    requires TimesIncrease(d) && b < Slots(p)
    requires Counts(p, tz, d, Pairs(d))[b] == 0
    ensures Group(p, tz, d)[b] == Init(p)
  {
    LastWrite(p, tz, d, Pairs(d), b);
  }

  /** The charged on-time of a slot is at most 100 per pair. */
  lemma {:induction false} OnTimeCharged(p: Profile, tz: int, d: seq<Row>, n: nat, b: nat)
    requires TimesIncrease(d) && n <= Pairs(d) && b < Slots(p)
    ensures Acc(p, tz, d, n)[b].onTime <= 100.0 * Counts(p, tz, d, n)[b] as real
  {
    if n > 0 {
      OnTimeCharged(p, tz, d, n - 1, b);
      OnTimeRateBound(d[n], d[n - 1]);
    }
  }

  /**
   * The weekly on-time of a slot is a sum of rates, at most 100 per pair; the
   * hourly one is their mean, at most 100.
   */
  lemma OnTimeBound(p: Profile, tz: int, d: seq<Row>, b: nat)
    requires TimesIncrease(d) && b < Slots(p)
    ensures var c := Counts(p, tz, d, Pairs(d))[b];
      p == Weekly ==> Group(p, tz, d)[b].onTime <= 100.0 * c as real
    ensures p == Hourly ==> Group(p, tz, d)[b].onTime <= 100.0
  {
    OnTimeCharged(p, tz, d, Pairs(d), b);
    LastWrite(p, tz, d, Pairs(d), b);
    var c := Counts(p, tz, d, Pairs(d))[b];
    var acc := Acc(p, tz, d, Pairs(d))[b];
    if p == Hourly && c > 0 {
      assert acc.onTime / c as real <= 100.0;
    }
  }
}
