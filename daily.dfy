/**
 * The daily reduction of one gear's samples: the samples are sorted newest
 * first (in the caller's array), each local calendar day keeps its newest
 * sample, whose `device_arc` is overwritten with the mean arc level of the day,
 * and the kept samples come back oldest first.
 *
 * The reduction walks the days newest first and starts with the newest sample
 * already counted once, so the newest day's mean counts its newest sample twice.
 */
module Daily {
  import opened Frame
  import opened Calendar
  import opened Sequences
  import opened Samples

  function DayKeys(tz: int, d: seq<Row>): (k: seq<int>)
    ensures |k| == |d|
    ensures forall i {:trigger k[i]} :: 0 <= i < |d| ==> k[i] == Day(tz, d[i].createdAt)
  {
    seq(|d|, i requires 0 <= i < |d| => Day(tz, d[i].createdAt))
  }

  /** The local days of samples; a sample's row, and so its time, never changes. */
  function SampleDays(tz: int, s: seq<Sample>): (k: seq<int>)
    ensures |k| == |s|
    ensures forall i {:trigger k[i]} :: 0 <= i < |s| ==> k[i] == Day(tz, s[i].row.createdAt)
  {
    seq(|s|, i requires 0 <= i < |s| => Day(tz, s[i].row.createdAt))
  }

  lemma DaysOfViews(tz: int, s: seq<Sample>)
    ensures DayKeys(tz, Views(s)) == SampleDays(tz, s)
  {
  }

  function Arcs(d: seq<Row>): (a: seq<real>)
    ensures |a| == |d|
    ensures forall i {:trigger a[i]} :: 0 <= i < |d| ==> a[i] == d[i].deviceArc
  {
    seq(|d|, i requires 0 <= i < |d| => d[i].deviceArc)
  }

  /**
   * The arc level written into the opener `s` of a run of equal days: the
   * mean over the run, where the run at position 0 counts its opener twice.
   */
  function RunMean(keys: seq<int>, arcs: seq<real>, s: nat): real
    requires |keys| == |arcs| && s < |keys|
  {
    var e := RunEnd(keys, s);
    if s == 0 then (Sum(arcs[0..e]) + arcs[0]) / (e + 1) as real
    else Sum(arcs[s..e]) / (e - s) as real
  }

  /** The arc levels after the reduction: run openers hold their run's mean, the rest keep theirs. */
  function MergedArcs(keys: seq<int>, arcs: seq<real>): (m: seq<real>)
    requires |keys| == |arcs|
    ensures |m| == |arcs|
    ensures forall j {:trigger m[j]} :: 0 <= j < |arcs| ==> m[j] == if IsStart(keys, j) then RunMean(keys, arcs, j) else arcs[j]
  {
    seq(|arcs|, j requires 0 <= j < |arcs| => if IsStart(keys, j) then RunMean(keys, arcs, j) else arcs[j])
  }

  /** A newest-first sequence of samples as it reads after the reduction has written the means. */
  function DescAfter(tz: int, d: seq<Row>): (r: seq<Row>)
    ensures |r| == |d|
    ensures forall j {:trigger r[j]} :: 0 <= j < |d| ==> r[j] == WithArc(d[j], MergedArcs(DayKeys(tz, d), Arcs(d))[j])
  {
    var m := MergedArcs(DayKeys(tz, d), Arcs(d));
    seq(|d|, j requires 0 <= j < |d| => d[j].(deviceArc := m[j]))
  }

  /** How the samples read after the daily reduction ran on samples that read `v`. */
  function AfterDaily(tz: int, v: seq<Row>): seq<Row> {
    if |v| < 2 then v else DescAfter(tz, SortBy(v, NegRowTime))
  }

  /**
   * What the daily reduction returns for samples that read `v` when it
   * starts: the day openers of the newest-first walk, oldest first. The sort
   * that ends the reduction yields exactly this order (`DailyIsReversed`).
   */
  function DailyMerge(tz: int, v: seq<Row>): seq<Row> {
    if |v| < 2 then v else Reverse(Openers(tz, v))
  }

  /** Every run opener before `c` holds its run's mean; every other sample its own arc level. */
  ghost predicate MeansBelow(s: seq<Sample>, keys: seq<int>, arcs: seq<real>, c: nat)
    requires |keys| == |arcs| == |s|
    reads s
  {
    forall j {:trigger s[j].deviceArc} :: 0 <= j < |s| ==>
      s[j].deviceArc == if j < c && IsStart(keys, j) then RunMean(keys, arcs, j) else arcs[j]
  }

  /**
   * The state of the walk after visiting the first `i` samples: `current`
   * opens the run being summed, `arc` and `arcnt` are its running sum and
   * count, the runs before it hold their means, and `ret` holds the openers
   * met so far.
   */
  ghost predicate Walked(s: seq<Sample>, keys: seq<int>, arcs: seq<real>, i: nat, current: nat, arc: real, arcnt: int, ret: seq<Sample>)
    reads s
  {
    && |keys| == |arcs| == |s|
    && current <= i <= |s| && current < |s| && (i > 0 ==> current < i)
    && IsStart(keys, current)
    && (forall j :: current <= j < i ==> keys[j] == keys[current])
    && arc == Sum(arcs[current..i]) + (if current == 0 then arcs[0] else 0.0)
    && arcnt == i - current + (if current == 0 then 1 else 0)
    && MeansBelow(s, keys, arcs, current)
    && ret == Pick(s, StartsBelow(keys, if i == 0 then 1 else i))
  }

  /**
   * The walk over a newest-first array: keep a running sum and count of the
   * current day's arc levels, and write their mean into the day's first
   * (newest) sample when the day changes and at the end. Returns the day
   * openers in array order.
   */
  method WriteDayMeans(tz: int, s: seq<Sample>, ghost keys: seq<int>, ghost arcs: seq<real>) returns (ret: seq<Sample>)
    requires |s| >= 1 && Distinct(s)
    requires |keys| == |arcs| == |s|
    requires forall j {:trigger s[j]} :: 0 <= j < |s| ==> keys[j] == Day(tz, s[j].row.createdAt) && arcs[j] == s[j].deviceArc
    modifies s
    ensures forall j :: 0 <= j < |s| ==> s[j].deviceArc == MergedArcs(keys, arcs)[j]
    ensures ret == Pick(s, Starts(keys))
  {
    var n := |s|;
    var current := 0;
    ret := [s[0]];
    var arc := s[0].deviceArc;
    var arcnt := 1;
    var i := 0;
    WalkBegins(s, keys, arcs);
    while i < n
      invariant Walked(s, keys, arcs, i, current, arc, arcnt, ret)
    {
      current, arc, arcnt, ret := Visit(tz, s, keys, arcs, i, current, arc, arcnt, ret);
      i := i + 1;
    }
    WalkEnds(s, keys, arcs, current, arc, arcnt, ret);
    WriteMean(s, keys, arcs, n, current, arc, arcnt, ret);
  }

  /** Before the walk the first sample opens the first run, counted once already. */
  lemma WalkBegins(s: seq<Sample>, keys: seq<int>, arcs: seq<real>)
    requires |s| >= 1 && |keys| == |arcs| == |s|
    requires forall j {:trigger s[j]} :: 0 <= j < |s| ==> arcs[j] == s[j].deviceArc
    ensures Walked(s, keys, arcs, 0, 0, s[0].deviceArc, 1, [s[0]])
  {
    assert arcs[0..0] == [];
    assert StartsBelow(keys, 1) == [0];
  }

  /** After the last sample the openers met are all of them, and the last run is still open. */
  lemma WalkEnds(s: seq<Sample>, keys: seq<int>, arcs: seq<real>, current: nat, arc: real, arcnt: int, ret: seq<Sample>)
    requires |s| >= 1 && Walked(s, keys, arcs, |s|, current, arc, arcnt, ret)
    ensures current < |s| && ret == Pick(s, Starts(keys))
  {
  }

  /** One step of the walk: sample `i` joins the current day, or closes it and opens the next. */
  method Visit(tz: int, s: seq<Sample>, ghost keys: seq<int>, ghost arcs: seq<real>, i: nat,
               current: nat, arc: real, arcnt: int, ret: seq<Sample>)
    returns (current': nat, arc': real, arcnt': int, ret': seq<Sample>)
    requires Distinct(s) && i < |s| && Walked(s, keys, arcs, i, current, arc, arcnt, ret)
    requires forall j {:trigger s[j]} :: 0 <= j < |s| ==> keys[j] == Day(tz, s[j].row.createdAt)
    modifies s
    ensures Walked(s, keys, arcs, i + 1, current', arc', arcnt', ret')
  {
    if Day(tz, s[i].row.createdAt) == Day(tz, s[current].row.createdAt) {
      ExtendRun(s, keys, arcs, i, current, arc, arcnt, ret);
      current', arc', arcnt', ret' := current, arc + s[i].deviceArc, arcnt + 1, ret;
    } else {
      WriteMean(s, keys, arcs, i, current, arc, arcnt, ret);
      OpenRun(s, keys, arcs, i, ret);
      current', arc', arcnt', ret' := i, s[i].deviceArc, 1, ret + [s[i]];
    }
  }

  /** A sample on the current run's day joins the running sum. */
  lemma ExtendRun(s: seq<Sample>, keys: seq<int>, arcs: seq<real>, i: nat, current: nat, arc: real, arcnt: int, ret: seq<Sample>)
    requires Walked(s, keys, arcs, i, current, arc, arcnt, ret)
    requires i < |s| && keys[i] == keys[current]
    ensures i < |s| && s[i].deviceArc == arcs[i]
    ensures Walked(s, keys, arcs, i + 1, current, arc + arcs[i], arcnt + 1, ret)
  {
    SumSnoc(arcs, current, i);
    StartsStep(keys, i);
    assert i > 0 ==> !IsStart(keys, i);
  }

  /** Writing the running mean into the opener closes its run: every opener before `i` now holds its mean. */
  method WriteMean(s: seq<Sample>, ghost keys: seq<int>, ghost arcs: seq<real>, ghost i: nat, current: nat, arc: real, arcnt: int, ghost ret: seq<Sample>)
    requires Distinct(s)
    requires Walked(s, keys, arcs, i, current, arc, arcnt, ret)
    requires current < i && (i < |s| ==> keys[i] != keys[current])
    modifies s[current]
    ensures MeansBelow(s, keys, arcs, i)
    ensures i == |s| ==> forall j :: 0 <= j < |s| ==> s[j].deviceArc == MergedArcs(keys, arcs)[j]
  {
    CloseRun(keys, arcs, current, i, arc, arcnt);
    s[current].deviceArc := arc / arcnt as real;
    forall j | 0 <= j < |s|
      ensures s[j].deviceArc == if j < i && IsStart(keys, j) then RunMean(keys, arcs, j) else arcs[j]
    {
      if j != current {
        assert s[j] != s[current];
      }
    }
  }

  /** A sample on a new day opens the next run. */
  lemma OpenRun(s: seq<Sample>, keys: seq<int>, arcs: seq<real>, i: nat, ret: seq<Sample>)
    requires |keys| == |arcs| == |s| && 0 < i < |s| && keys[i] != keys[i - 1]
    requires MeansBelow(s, keys, arcs, i)
    requires ret == Pick(s, StartsBelow(keys, i))
    ensures s[i].deviceArc == arcs[i]
    ensures Walked(s, keys, arcs, i + 1, i, arcs[i], 1, ret + [s[i]])
  {
    SumOne(arcs, i);
    StartsStep(keys, i);
    PickSnoc(s, StartsBelow(keys, i), i);
  }

  /** The running sum and count of a run that has just ended give the run's mean. */
  lemma CloseRun(keys: seq<int>, arcs: seq<real>, current: nat, i: nat, arc: real, arcnt: int)
    requires |keys| == |arcs| && current < i <= |keys|
    requires forall j :: current <= j < i ==> keys[j] == keys[current]
    requires i < |keys| ==> keys[i] != keys[current]
    requires arc == Sum(arcs[current..i]) + (if current == 0 then arcs[0] else 0.0)
    requires arcnt == i - current + (if current == 0 then 1 else 0)
    ensures arc / arcnt as real == RunMean(keys, arcs, current)
  {
    RunEndIs(keys, current, current + 1, i);
  }

  /**
   * The reduction on the caller's array: sort it newest first in place, write
   * the day means, and sort the kept samples oldest first.
   */
  method MergeToDaily(tz: int, a: array<Sample>) returns (daily: seq<Sample>)
    requires Distinct(a[..])
    modifies a, set x | x in a[..]
    ensures a.Length < 2 ==> a[..] == old(a[..]) && daily == a[..]
    ensures a.Length >= 2 ==> a[..] == SortBy(old(a[..]), NegRefTime)
    ensures a.Length >= 2 ==> daily == SortBy(Pick(a[..], Starts(SampleDays(tz, a[..]))), RefTime)
    ensures Views(a[..]) == AfterDaily(tz, old(Views(a[..])))
    ensures Views(daily) == DailyMerge(tz, old(Views(a[..])))
    ensures forall x :: x in daily ==> x in old(a[..])
  {
    if a.Length < 2 {
      return a[..];
    }
    ghost var s0, v0 := a[..], Views(a[..]);
    SortArray(a, NegRefTime, NegRowTime);
    SortByFacts(s0, NegRefTime);
    DistinctPerm(s0, a[..]);
    PermMembers(s0, a[..]);
    daily := DayOpeners(tz, a[..]);
    DailyIsReversed(tz, v0);
  }

  /** Writes the day means into newest-first samples `s` and returns the openers oldest first. */
  method DayOpeners(tz: int, s: seq<Sample>) returns (daily: seq<Sample>)
    requires |s| >= 1 && Distinct(s)
    modifies set x | x in s
    ensures Views(s) == DescAfter(tz, old(Views(s)))
    ensures daily == SortBy(Pick(s, Starts(SampleDays(tz, s))), RefTime)
    ensures Views(daily) == SortBy(Pick(DescAfter(tz, old(Views(s))), Starts(DayKeys(tz, old(Views(s))))), RowTime)
    ensures forall x :: x in daily ==> x in s
  {
    ghost var d := Views(s);
    DaysOfViews(tz, s);
    ghost var keys := DayKeys(tz, d);
    ghost var arcs := Arcs(d);
    var ret := WriteDayMeans(tz, s, keys, arcs);
    ViewsAfter(tz, s, d);
    daily := SortBy(ret, RefTime);
    ViewsSort(ret, RefTime, RowTime);
    ViewsPick(s, Starts(keys));
    SortPickMembers(s, Starts(keys), RefTime);
  }

  /** Samples that read as `d` before the walk read as `DescAfter(tz, d)` after it. */
  lemma ViewsAfter(tz: int, s: seq<Sample>, d: seq<Row>)
    requires |d| == |s|
    requires forall j :: 0 <= j < |s| ==> d[j] == WithArc(s[j].row, d[j].deviceArc)
    requires forall j :: 0 <= j < |s| ==> s[j].deviceArc == MergedArcs(DayKeys(tz, d), Arcs(d))[j]
    ensures Views(s) == DescAfter(tz, d)
  {
  }

  // ---------------------------------------------------------------------------
  // What the reduction keeps

  /** Newest-first order never puts a later day after an earlier one. */
  lemma DaysNonIncreasing(tz: int, d: seq<Row>)
    requires SortedBy(d, NegRowTime)
    ensures NonIncreasing(DayKeys(tz, d))
  {
    var k := DayKeys(tz, d);
    forall i, j | 0 <= i < j < |d|
      ensures k[i] >= k[j]
    {
      assert NegRowTime(d[i]) <= NegRowTime(d[j]);
      Monotone(tz, d[j].createdAt, d[i].createdAt);
    }
  }

  /** The day openers of the newest-first records, after the means are written. */
  function Openers(tz: int, v: seq<Row>): seq<Row> {
    var d := SortBy(v, NegRowTime);
    Pick(DescAfter(tz, d), Starts(DayKeys(tz, d)))
  }

  /**
   * The openers fall on strictly decreasing days, so the final oldest-first
   * sort just reverses them.
   */
  lemma DailyIsReversed(tz: int, v: seq<Row>)
    requires |v| >= 2
    ensures var o := Openers(tz, v);
      forall k, l :: 0 <= k < l < |o| ==> Day(tz, o[k].createdAt) > Day(tz, o[l].createdAt)
    ensures SortBy(Openers(tz, v), RowTime) == DailyMerge(tz, v)
  {
    var d := SortBy(v, NegRowTime);
    var keys := DayKeys(tz, d);
    var o := Openers(tz, v);
    SortByFacts(v, NegRowTime);
    DaysNonIncreasing(tz, d);
    OpenersDescending(keys);
    SortOfDescending(o, RowTime);
  }

  /** The result lies on strictly increasing days, hence at strictly increasing times. */
  lemma DailyAscending(tz: int, v: seq<Row>)
    ensures var r := DailyMerge(tz, v);
      forall k, l :: 0 <= k < l < |r| ==> Day(tz, r[k].createdAt) < Day(tz, r[l].createdAt)
    ensures StrictlySortedBy(DailyMerge(tz, v), RowTime)
  {
    if |v| >= 2 {
      DailyIsReversed(tz, v);
      ReversedDays(tz, Openers(tz, v));
    }
  }

  /**
   * The reduction is idempotent: its result has one record per day, oldest
   * first, and reducing that again keeps every record with its arc level,
   * the newest one's doubled mean being (a + a) / 2 = a.
   */
  lemma DailyIdempotent(tz: int, v: seq<Row>)
    ensures DailyMerge(tz, DailyMerge(tz, v)) == DailyMerge(tz, v)
  {
    var w := DailyMerge(tz, v);
    if |v| >= 2 && |w| >= 2 {
      var o := Openers(tz, v);
      DailyIsReversed(tz, v);
      DailyAscending(tz, v);
      assert SortBy(w, NegRowTime) == o by {
        forall i, j | 0 <= i < j < |w|
          ensures NegRowTime(w[i]) > NegRowTime(w[j])
        {
          assert RowTime(w[i]) < RowTime(w[j]);
        }
        SortOfDescending(w, NegRowTime);
        ReverseTwice(o);
      }
      SingleRuns(tz, o);
    }
  }

  /**
   * Over records on pairwise different consecutive days every record opens
   * a run of its own, so the walk rewrites no arc level and keeps them all.
   */
  lemma SingleRuns(tz: int, d: seq<Row>)
    requires forall k, l :: 0 <= k < l < |d| ==> Day(tz, d[k].createdAt) > Day(tz, d[l].createdAt)
    ensures Pick(DescAfter(tz, d), Starts(DayKeys(tz, d))) == d
  {
    var keys, arcs := DayKeys(tz, d), Arcs(d);
    forall i | 0 < i < |keys|
      ensures keys[i] != keys[i - 1]
    {
      assert Day(tz, d[i - 1].createdAt) > Day(tz, d[i].createdAt);
    }
    var r := DescAfter(tz, d);
    forall j | 0 <= j < |d|
      ensures r[j] == d[j]
    {
      RunEndFacts(keys, j);
      var e := RunEnd(keys, j);
      assert e == j + 1;
      SumOne(arcs, j);
      assert MergedArcs(keys, arcs)[j] == arcs[j];
    }
    AllStartsBelow(keys, |keys|);
    PickAll(r, Starts(keys));
  }

  lemma ReversedDays(tz: int, o: seq<Row>)
    requires forall k, l :: 0 <= k < l < |o| ==> Day(tz, o[k].createdAt) > Day(tz, o[l].createdAt)
    ensures var r := Reverse(o);
      forall k, l :: 0 <= k < l < |r| ==> Day(tz, r[k].createdAt) < Day(tz, r[l].createdAt)
    ensures StrictlySortedBy(Reverse(o), RowTime)
  {
    var r := Reverse(o);
    forall k, l | 0 <= k < l < |r|
      ensures Day(tz, r[k].createdAt) < Day(tz, r[l].createdAt)
    {
      assert r[k] == o[|o| - 1 - k] && r[l] == o[|o| - 1 - l];
    }
    forall k, l | 0 <= k < l < |r|
      ensures RowTime(r[k]) < RowTime(r[l])
    {
      assert Day(tz, r[k].createdAt) < Day(tz, r[l].createdAt);
    }
  }
}
