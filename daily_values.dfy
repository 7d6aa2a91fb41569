/**
 * What the daily reduction keeps, stated over the records it was given
 * rather than over its newest-first walk: one record per day present, the
 * newest of that day, carrying the mean arc level of the day's records, where
 * the day of the newest record counts that record twice.
 */
module DailyValues {
  import opened Frame
  import opened Calendar
  import opened Sequences
  import opened Samples
  import opened Daily

  function Arc(r: Row): real {
    r.deviceArc
  }

  function OnDay(tz: int, day: int): Row -> bool {
    (r: Row) => Day(tz, r.createdAt) == day
  }

  /** The records of `v` that fall on local day `day`, in their order. */
  function DayRows(tz: int, v: seq<Row>, day: int): seq<Row> {
    Filter(v, OnDay(tz, day))
  }

  /** `top` is a record of `v` strictly newer than every other record of `v`. */
  predicate NewestOf(v: seq<Row>, top: Row) {
    top in v && forall x :: x in v && x != top ==> x.createdAt < top.createdAt
  }

  /** Opener `kk` of the newest-first walk is the sample at a day opener `s`, as it reads after the walk. */
  lemma OpenerOf(tz: int, v: seq<Row>, kk: nat) returns (s: nat)
    requires kk < |Openers(tz, v)|
    ensures s < |v| && IsStart(DayKeys(tz, SortBy(v, NegRowTime)), s)
    ensures Openers(tz, v)[kk] == DescAfter(tz, SortBy(v, NegRowTime))[s]
  {
    var keys := DayKeys(tz, SortBy(v, NegRowTime));
    OpenerAt(keys, kk);
    s := Starts(keys)[kk];
  }

  /** A record of the newest-first order is a record of the input. */
  lemma SortedIn(v: seq<Row>, j: nat)
    requires j < |SortBy(v, NegRowTime)|
    ensures SortBy(v, NegRowTime)[j] in v
  {
    SortByFacts(v, NegRowTime);
    assert SortBy(v, NegRowTime)[j] in multiset(v);
  }

  /** A record of the input has a place in the newest-first order. */
  lemma InSorted(v: seq<Row>, x: Row) returns (j: nat)
    requires x in v
    ensures j < |SortBy(v, NegRowTime)| && SortBy(v, NegRowTime)[j] == x
  {
    SortByFacts(v, NegRowTime);
    assert x in multiset(SortBy(v, NegRowTime));
    j :| 0 <= j < |SortBy(v, NegRowTime)| && SortBy(v, NegRowTime)[j] == x;
  }

  /** In the newest-first order, later positions are no newer. */
  lemma SortedNewer(v: seq<Row>, i: nat, j: nat)
    requires i <= j < |SortBy(v, NegRowTime)|
    ensures SortBy(v, NegRowTime)[j].createdAt <= SortBy(v, NegRowTime)[i].createdAt
  {
    SortByFacts(v, NegRowTime);
    if i < j {
      assert NegRowTime(SortBy(v, NegRowTime)[i]) <= NegRowTime(SortBy(v, NegRowTime)[j]);
    }
  }

  /** In the newest-first order, days never increase. */
  lemma SortedDays(tz: int, v: seq<Row>)
    ensures NonIncreasing(DayKeys(tz, SortBy(v, NegRowTime)))
  {
    SortByFacts(v, NegRowTime);
    DaysNonIncreasing(tz, SortBy(v, NegRowTime));
  }

  /** Kept record `k` is opener `kk` of the newest-first walk. */
  lemma DailyAt(tz: int, v: seq<Row>, k: nat) returns (kk: nat)
    requires |v| >= 2 && k < |DailyMerge(tz, v)|
    ensures kk < |Openers(tz, v)| && DailyMerge(tz, v)[k] == Openers(tz, v)[kk]
  {
    kk := |Openers(tz, v)| - 1 - k;
  }

  /** Opener `kk` of the newest-first walk is kept record `k`. */
  lemma InDaily(tz: int, v: seq<Row>, kk: nat) returns (k: nat)
    requires |v| >= 2 && kk < |Openers(tz, v)|
    ensures k < |DailyMerge(tz, v)| && DailyMerge(tz, v)[k] == Openers(tz, v)[kk]
  {
    k := |Openers(tz, v)| - 1 - kk;
  }

  /** Opener `kk` is a record of the input with only its arc level replaced. */
  lemma OpenerKept(tz: int, v: seq<Row>, kk: nat)
    requires kk < |Openers(tz, v)|
    ensures exists x :: x in v && Openers(tz, v)[kk] == WithArc(x, Openers(tz, v)[kk].deviceArc)
  {
    var s := OpenerOf(tz, v, kk);
    var d := SortBy(v, NegRowTime);
    SortedIn(v, s);
    assert Openers(tz, v)[kk] == WithArc(d[s], Openers(tz, v)[kk].deviceArc);
  }

  /** Every kept record is a record of the input with only its arc level replaced. */
  lemma DailyKept(tz: int, v: seq<Row>, k: nat)
    requires |v| >= 2 && k < |DailyMerge(tz, v)|
    ensures exists x :: x in v && DailyMerge(tz, v)[k] == WithArc(x, DailyMerge(tz, v)[k].deviceArc)
  {
    var kk := DailyAt(tz, v, k);
    OpenerKept(tz, v, kk);
  }

  /** Opener `kk` is the newest record of its day. */
  lemma OpenerNewest(tz: int, v: seq<Row>, kk: nat, x: Row)
    requires kk < |Openers(tz, v)|
    requires x in v && Day(tz, x.createdAt) == Day(tz, Openers(tz, v)[kk].createdAt)
    ensures x.createdAt <= Openers(tz, v)[kk].createdAt
  {
    var s := OpenerOf(tz, v, kk);
    var d := SortBy(v, NegRowTime);
    var keys := DayKeys(tz, d);
    var j := InSorted(v, x);
    assert s <= j by {
      SortedDays(tz, v);
      OpenerFirst(keys, s, j);
    }
    SortedNewer(v, s, j);
  }

  /** Every kept record is the newest of its day. */
  lemma DailyNewest(tz: int, v: seq<Row>, k: nat, x: Row)
    requires |v| >= 2 && k < |DailyMerge(tz, v)|
    requires x in v && Day(tz, x.createdAt) == Day(tz, DailyMerge(tz, v)[k].createdAt)
    ensures x.createdAt <= DailyMerge(tz, v)[k].createdAt
  {
    var kk := DailyAt(tz, v, k);
    OpenerNewest(tz, v, kk, x);
  }

  /** Some opener lies on the day of `x` and is no older than `x`. */
  lemma OpenerCovers(tz: int, v: seq<Row>, x: Row) returns (kk: nat)
    requires x in v
    ensures kk < |Openers(tz, v)|
    ensures Day(tz, Openers(tz, v)[kk].createdAt) == Day(tz, x.createdAt)
    ensures x.createdAt <= Openers(tz, v)[kk].createdAt
  {
    var d := SortBy(v, NegRowTime);
    var keys := DayKeys(tz, d);
    var j := InSorted(v, x);
    kk := HasOpener(keys, j);
    var s := Starts(keys)[kk];
    OpenerAt(keys, kk);
    assert Openers(tz, v)[kk] == WithArc(d[s], MergedArcs(keys, Arcs(d))[s]);
    SortedNewer(v, s, j);
  }

  /** Every day of the input is kept, by a record no older than any of that day. */
  lemma DailyCovers(tz: int, v: seq<Row>, x: Row) returns (k: nat)
    requires |v| >= 2 && x in v
    ensures k < |DailyMerge(tz, v)|
    ensures Day(tz, DailyMerge(tz, v)[k].createdAt) == Day(tz, x.createdAt)
    ensures x.createdAt <= DailyMerge(tz, v)[k].createdAt
  {
    var kk := OpenerCovers(tz, v, x);
    k := InDaily(tz, v, kk);
  }

  // ---------------------------------------------------------------------------
  // The mean arc level

  lemma {:induction false} SumOfArcs(d: seq<Row>)
    ensures Sum(Arcs(d)) == SumBy(d, Arc)
    decreases |d|
  {
    if d != [] {
      SumOfArcs(d[..|d| - 1]);
      assert Arcs(d)[..|d| - 1] == Arcs(d[..|d| - 1]);
    }
  }

  /** In newest-first records, the run of equal days opened at `s` is exactly the records of that day. */
  lemma RunIsDay(tz: int, d: seq<Row>, s: nat)
    requires SortedBy(d, NegRowTime) && s < |d| && IsStart(DayKeys(tz, d), s)
    ensures DayRows(tz, d, Day(tz, d[s].createdAt)) == d[s..RunEnd(DayKeys(tz, d), s)]
  {
    var keys := DayKeys(tz, d);
    var e := RunEnd(keys, s);
    var p := OnDay(tz, keys[s]);
    DaysNonIncreasing(tz, d);
    RunEndFacts(keys, s);
    forall i | 0 <= i < |d|
      ensures p(d[i]) <==> s <= i < e
    {
      if i < s && keys[i] == keys[s] {
        OpenerFirst(keys, s, i);
      }
      if e <= i {
        assert keys[i] <= keys[e] < keys[s];
      }
    }
    FilterSlice(d, p, s, e);
  }

  /** The one newest record comes first once the records are sorted newest first. */
  lemma NewestFirst(v: seq<Row>, top: Row)
    requires |v| >= 1 && NewestOf(v, top)
    ensures SortBy(v, NegRowTime)[0] == top
  {
    var j := InSorted(v, top);
    SortedNewer(v, 0, j);
    SortedIn(v, 0);
  }

  /** A reordering has the same length. */
  lemma PermLength<T>(a: seq<T>, b: seq<T>)
    requires multiset(a) == multiset(b)
    ensures |a| == |b|
  {
    assert |multiset(a)| == |a| && |multiset(b)| == |b|;
  }

  /**
   * The records of a day in the newest-first order are the records of that
   * day in the input, reordered: same count, same arc total, and the run of
   * the day's opener `s` is exactly them.
   */
  lemma RunOfDay(tz: int, v: seq<Row>, s: nat)
    requires s < |v| && IsStart(DayKeys(tz, SortBy(v, NegRowTime)), s)
    ensures var d := SortBy(v, NegRowTime);
      var e := RunEnd(DayKeys(tz, d), s);
      var day := DayRows(tz, v, Day(tz, d[s].createdAt));
      && |day| == e - s
      && SumBy(day, Arc) == Sum(Arcs(d)[s..e])
  {
    var d := SortBy(v, NegRowTime);
    var keys := DayKeys(tz, d);
    var e := RunEnd(keys, s);
    SortByFacts(v, NegRowTime);
    RunIsDay(tz, d, s);
    var p := OnDay(tz, keys[s]);
    FilterPerm(d, v, p);
    PermLength(DayRows(tz, d, keys[s]), DayRows(tz, v, keys[s]));
    SumByPerm(DayRows(tz, d, keys[s]), DayRows(tz, v, keys[s]), Arc);
    ArcsSlice(d, s, e);
  }

  lemma ArcsSlice(d: seq<Row>, s: nat, e: nat)
    requires s <= e <= |d|
    ensures Sum(Arcs(d)[s..e]) == SumBy(d[s..e], Arc)
  {
    assert Arcs(d)[s..e] == Arcs(d[s..e]);
    SumOfArcs(d[s..e]);
  }

  /** `m` is the mean of `n` terms that add up to `total`. */
  predicate IsMean(m: real, n: nat, total: real) {
    n > 0 && m == total / n as real
  }

  /**
   * The arc level of `r` is the mean over the records of `v` on the day of
   * `r`, where the day of `top` counts `top` twice.
   */
  predicate DayMean(tz: int, v: seq<Row>, r: Row, top: Row) {
    var day := DayRows(tz, v, Day(tz, r.createdAt));
    var twice := Day(tz, r.createdAt) == Day(tz, top.createdAt);
    IsMean(r.deviceArc, |day| + (if twice then 1 else 0), SumBy(day, Arc) + (if twice then top.deviceArc else 0.0))
  }

  /** `DayMean` from the count and the total of the day's terms. */
  lemma DayMeanIs(tz: int, v: seq<Row>, r: Row, top: Row, n: nat, total: real)
    requires n == |DayRows(tz, v, Day(tz, r.createdAt))| + (if Day(tz, r.createdAt) == Day(tz, top.createdAt) then 1 else 0)
    requires total == SumBy(DayRows(tz, v, Day(tz, r.createdAt)), Arc)
      + (if Day(tz, r.createdAt) == Day(tz, top.createdAt) then top.deviceArc else 0.0)
    requires IsMean(r.deviceArc, n, total)
    ensures DayMean(tz, v, r, top)
  {
  }

  /** A run's mean is over its records, where the first run counts its opener twice. */
  lemma RunMeanIs(keys: seq<int>, arcs: seq<real>, s: nat, m: real, n: nat, total: real)
    requires |keys| == |arcs| && s < |keys| && IsStart(keys, s)
    requires m == RunMean(keys, arcs, s)
    requires n == (RunEnd(keys, s) - s) + (if s == 0 then 1 else 0)
    requires total == Sum(arcs[s..RunEnd(keys, s)]) + (if s == 0 then arcs[0] else 0.0)
    ensures IsMean(m, n, total)
  {
    RunEndFacts(keys, s);
  }

  /**
   * The arc level of opener `kk` is the mean over the records of its day,
   * except that the day of the newest record `top` counts `top` twice.
   */
  lemma OpenerMean(tz: int, v: seq<Row>, kk: nat, r: Row, top: Row)
    requires kk < |Openers(tz, v)| && r == Openers(tz, v)[kk]
    requires NewestOf(v, top)
    ensures DayMean(tz, v, r, top)
  {
    var s := OpenerOf(tz, v, kk);
    var d := SortBy(v, NegRowTime);
    var keys, arcs := DayKeys(tz, d), Arcs(d);
    var e := RunEnd(keys, s);
    assert r.createdAt == d[s].createdAt && r.deviceArc == RunMean(keys, arcs, s) by {
      assert r == WithArc(d[s], MergedArcs(keys, arcs)[s]);
    }
    var day := DayRows(tz, v, Day(tz, r.createdAt));
    var twice := Day(tz, r.createdAt) == Day(tz, top.createdAt);
    assert |day| == e - s && SumBy(day, Arc) == Sum(arcs[s..e]) by {
      RunOfDay(tz, v, s);
    }
    assert d[0] == top by {
      NewestFirst(v, top);
    }
    if s > 0 {
      // only the first run is the newest record's day
      assert !twice by {
        SortedDays(tz, v);
        assert keys[s] < keys[s - 1] <= keys[0];
      }
    }
    var n := |day| + (if twice then 1 else 0);
    var total := SumBy(day, Arc) + (if twice then top.deviceArc else 0.0);
    RunMeanIs(keys, arcs, s, r.deviceArc, n, total);
    DayMeanIs(tz, v, r, top, n, total);
  }

  /**
   * The arc level of a kept record is the mean over the records of its day,
   * except that the day of the newest record `top` counts `top` twice.
   */
  lemma DailyMean(tz: int, v: seq<Row>, k: nat, top: Row)
    requires |v| >= 2 && k < |DailyMerge(tz, v)|
    requires NewestOf(v, top)
    ensures DayMean(tz, v, DailyMerge(tz, v)[k], top)
  {
    var kk := DailyAt(tz, v, k);
    OpenerMean(tz, v, kk, DailyMerge(tz, v)[k], top);
  }
}
