/**
 * `getGroupingData` for one gear: the daily reduction, the hour-of-day
 * profile and the weekday profile, computed one after the other on the same
 * array of the gear's samples. Each of them sorts that array in place, and
 * the daily reduction, which the weekday profile runs a second time,
 * overwrites arc levels in it, so the later steps see what the earlier ones
 * left behind.
 */
module Grouping {
  import opened Wrappers
  import opened Frame
  import opened Sequences
  import opened Samples
  import opened Daily
  import opened Hourly
  import opened Buckets

  lemma StrictTimes(d: seq<Row>)
    requires StrictlySortedBy(d, RowTime)
    ensures TimesIncrease(d)
  {
    forall i | 0 <= i < |d| - 1
      ensures d[i].createdAt < d[i + 1].createdAt
    {
      assert RowTime(d[i]) < RowTime(d[i + 1]);
    }
  }

  /** The daily reduction comes out strictly oldest first. */
  lemma DailyIncreasing(tz: int, v: seq<Row>)
    ensures TimesIncrease(DailyMerge(tz, v))
  {
    DailyAscending(tz, v);
    StrictTimes(DailyMerge(tz, v));
  }

  /** So does the hourly reduction. */
  lemma HourlyIncreasing(tz: int, v: seq<Row>)
    requires |v| >= 2
    ensures TimesIncrease(HourlyMerge(tz, v))
  {
    HourlyAscending(tz, v);
    StrictTimes(HourlyMerge(tz, v));
  }

  /** The weekday profile of the daily reduction of records `v`. */
  function WeekProfile(tz: int, v: seq<Row>): (g: seq<Bucket>)
    ensures |g| == 7
  {
    DailyIncreasing(tz, v);
    Group(Weekly, tz, DailyMerge(tz, v))
  }

  /** The hour-of-day profile of the hourly reduction of records `v`. */
  function HourProfile(tz: int, v: seq<Row>): (g: seq<Bucket>)
    requires |v| >= 2
    ensures |g| == 24
  {
    HourlyIncreasing(tz, v);
    Group(Hourly, tz, HourlyMerge(tz, v))
  }

  /** `groupWeekData`: the weekday profile of the daily reduction of the samples. */
  method GroupWeek(tz: int, a: array<Sample>) returns (week: seq<Bucket>)
    requires Distinct(a[..])
    modifies a, set x | x in a[..]
    ensures week == WeekProfile(tz, old(Views(a[..])))
    ensures a.Length >= 2 ==> a[..] == SortBy(old(a[..]), NegRefTime)
    ensures a.Length < 2 ==> a[..] == old(a[..])
    ensures Views(a[..]) == AfterDaily(tz, old(Views(a[..])))
  {
    ghost var v := Views(a[..]);
    var daily := MergeToDaily(tz, a);
    week := ProfileOfDaily(tz, Views(daily), v);
  }

  /** The weekday buckets of the daily reduction `d` of records `v`. */
  method ProfileOfDaily(tz: int, d: seq<Row>, ghost v: seq<Row>) returns (week: seq<Bucket>)
    requires d == DailyMerge(tz, v)
    ensures week == WeekProfile(tz, v)
  {
    DailyIncreasing(tz, v);
    week := GroupPairs(Weekly, tz, d);
  }

  /**
   * `groupHourData`: nothing for 24 samples or fewer; otherwise the samples
   * are sorted oldest first in place and the hour-of-day profile of their
   * hourly reduction is returned.
   */
  method GroupHour(tz: int, a: array<Sample>) returns (hour: Option<seq<Bucket>>)
    modifies a
    ensures a.Length <= 24 ==> hour == None && a[..] == old(a[..])
    ensures a.Length > 24 ==> a[..] == SortBy(old(a[..]), RefTime)
    ensures a.Length > 24 ==> hour == Some(HourProfile(tz, old(Views(a[..]))))
    ensures Views(a[..]) == if a.Length <= 24 then old(Views(a[..])) else SortBy(old(Views(a[..])), RowTime)
  {
    if a.Length <= 24 {
      return None;
    }
    ghost var v := Views(a[..]);
    var hourly := MergeToHour(tz, a);
    var g := ProfileOfHourly(tz, Views(hourly), v);
    hour := Some(g);
  }

  /** The hour-of-day buckets of the hourly reduction `d` of records `v`. */
  method ProfileOfHourly(tz: int, d: seq<Row>, ghost v: seq<Row>) returns (g: seq<Bucket>)
    requires |v| >= 2 && d == HourlyMerge(tz, v)
    ensures g == HourProfile(tz, v)
  {
    HourlyIncreasing(tz, v);
    g := GroupPairs(Hourly, tz, d);
  }

  /**
   * The three analyses of one gear, in the order the request runs them. The
   * daily result is made of the caller's own sample objects, which the
   * weekday profile's second daily reduction writes into again: the day
   * records are those of the first reduction, but their arc levels are the
   * ones the second reduction left in the array.
   */
  method GroupingData(tz: int, a: array<Sample>) returns (day: seq<Sample>, hour: Option<seq<Bucket>>, week: seq<Bucket>)
    requires Distinct(a[..])
    modifies a, set x | x in a[..]
    ensures forall x :: x in day ==> x in old(a[..]) && x in a[..]
    ensures var v1 := AfterDaily(tz, old(Views(a[..])));
      && hour == (if a.Length <= 24 then None else Some(HourProfile(tz, v1)))
      && week == WeekProfile(tz, if a.Length <= 24 then v1 else SortBy(v1, RowTime))
    ensures var v1 := AfterDaily(tz, old(Views(a[..])));
      Views(a[..]) == AfterDaily(tz, if a.Length <= 24 then v1 else SortBy(v1, RowTime))
    ensures var first := DailyMerge(tz, old(Views(a[..])));
      && |day| == |first|
      && forall k :: 0 <= k < |day| ==> View(day[k]) == WithArc(first[k], day[k].deviceArc)
    ensures forall x :: x in day ==> View(x) in Views(a[..])
  {
    ghost var s0, v0 := a[..], Views(a[..]);
    day := MergeToDaily(tz, a);
    ghost var first := Views(day);
    assert forall k :: 0 <= k < |day| ==> first[k] == WithArc(day[k].row, first[k].deviceArc);
    ghost var s1, v1 := a[..], Views(a[..]);
    SortByFacts(s0, NegRefTime);
    assert multiset(s1) == multiset(s0);
    DistinctPerm(s0, s1);
    hour := GroupHour(tz, a);
    ghost var s2 := a[..];
    SortByFacts(s1, RefTime);
    assert multiset(s2) == multiset(s0);
    DistinctPerm(s0, s2);
    PermMembers(s0, s2);
    week := GroupWeek(tz, a);
    SortByFacts(s2, NegRefTime);
    assert multiset(a[..]) == multiset(s0);
    PermMembers(a[..], s0);
    ViewedIn(day, a[..]);
  }

  /** The samples of `d`, all held in `s`, read as some of the views of `s`. */
  lemma ViewedIn(d: seq<Sample>, s: seq<Sample>)
    requires forall x :: x in d ==> x in s
    ensures forall x :: x in d ==> View(x) in Views(s)
  {
    forall x | x in d
      ensures View(x) in Views(s)
    {
      var j :| 0 <= j < |s| && s[j] == x;
      assert Views(s)[j] == View(x);
    }
  }
}
