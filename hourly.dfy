/**
 * The hourly reduction of one gear's samples: the samples are sorted oldest
 * first (in the caller's array) and each local clock hour keeps its oldest
 * sample. The same walk is repeated inside the hour-of-day bucketing.
 */
module Hourly {
  import opened Frame
  import opened Calendar
  import opened Sequences
  import opened Samples

  function HourKeys(tz: int, d: seq<Row>): (k: seq<int>)
    ensures |k| == |d|
    ensures forall i :: 0 <= i < |d| ==> k[i] == Hour(tz, d[i].createdAt)
  {
    seq(|d|, i requires 0 <= i < |d| => Hour(tz, d[i].createdAt))
  }

  /** The local clock hours of samples; a sample's time never changes. */
  function SampleHours(tz: int, s: seq<Sample>): (k: seq<int>)
    ensures |k| == |s|
    ensures forall i :: 0 <= i < |s| ==> k[i] == Hour(tz, s[i].row.createdAt)
  {
    seq(|s|, i requires 0 <= i < |s| => Hour(tz, s[i].row.createdAt))
  }

  lemma HoursOfViews(tz: int, s: seq<Sample>)
    ensures HourKeys(tz, Views(s)) == SampleHours(tz, s)
  {
  }

  /** What the hourly reduction returns for records `v`. */
  function HourlyMerge(tz: int, v: seq<Row>): seq<Row> {
    if |v| < 2 then v
    else
      var asc := SortBy(v, RowTime);
      Pick(asc, Starts(HourKeys(tz, asc)))
  }

  /**
   * The walk over an oldest-first sequence: a sample whose hour differs from
   * the hour of the last one kept is kept. Returns the kept samples in order.
   */
  method FirstOfEachHour(tz: int, s: seq<Sample>) returns (ret: seq<Sample>)
    requires |s| >= 1
    ensures ret == Pick(s, Starts(SampleHours(tz, s)))
  {
    ghost var keys := SampleHours(tz, s);
    var current := 0;
    ret := [s[0]];
    var i := 0;
    while i < |s|
      invariant HourWalk(s, keys, current, i, ret)
    {
      if Hour(tz, s[current].row.createdAt) != Hour(tz, s[i].row.createdAt) {
        HourOpens(s, keys, current, i, ret);
        current := i;
        ret := ret + [s[i]];
      } else {
        HourGoesOn(s, keys, current, i, ret);
      }
      i := i + 1;
    }
  }

  /**
   * Where the walk stands before position `i`: `current` is the opener of
   * the hour run `i` is in or just after, and `ret` holds the openers so far.
   */
  ghost predicate HourWalk(s: seq<Sample>, keys: seq<int>, current: nat, i: nat, ret: seq<Sample>)
    requires |keys| == |s|
  {
    && i <= |s| && current < |s| && current <= i && (i > 0 ==> current < i)
    && (forall j :: current <= j < i ==> keys[j] == keys[current])
    && ret == Pick(s, StartsBelow(keys, if i == 0 then 1 else i))
  }

  /** A sample of another hour than the current opener's opens a run and is kept. */
  lemma HourOpens(s: seq<Sample>, keys: seq<int>, current: nat, i: nat, ret: seq<Sample>)
    requires |keys| == |s| && i < |s| && HourWalk(s, keys, current, i, ret) && keys[i] != keys[current]
    ensures HourWalk(s, keys, i, i + 1, ret + [s[i]])
  {
    StartsStep(keys, i);
    assert IsStart(keys, i);
    PickSnoc(s, StartsBelow(keys, i), i);
  }

  /** A sample of the current opener's hour is passed over. */
  lemma HourGoesOn(s: seq<Sample>, keys: seq<int>, current: nat, i: nat, ret: seq<Sample>)
    requires |keys| == |s| && i < |s| && HourWalk(s, keys, current, i, ret) && keys[i] == keys[current]
    ensures HourWalk(s, keys, current, i + 1, ret)
  {
    StartsStep(keys, i);
    if i > 0 {
      assert keys[i - 1] == keys[current];
    }
  }

  /**
   * `mergeToHourData`: sort the caller's array oldest first in place and keep
   * the first sample of each hour; fewer than two samples come back as they are.
   */
  method MergeToHour(tz: int, a: array<Sample>) returns (hourly: seq<Sample>)
    modifies a
    ensures a.Length < 2 ==> a[..] == old(a[..]) && hourly == a[..]
    ensures a.Length >= 2 ==> a[..] == SortBy(old(a[..]), RefTime)
    ensures a.Length >= 2 ==> Views(a[..]) == SortBy(old(Views(a[..])), RowTime)
    ensures a.Length >= 2 ==> hourly == Pick(a[..], Starts(SampleHours(tz, a[..])))
    ensures Views(hourly) == HourlyMerge(tz, old(Views(a[..])))
  {
    if a.Length < 2 {
      return a[..];
    }
    ghost var v := Views(a[..]);
    SortArray(a, RefTime, RowTime);
    hourly := FirstOfEachHour(tz, a[..]);
    HourlyOfSorted(tz, a[..], v);
  }

  /** Keeping the first sample of each hour of the sorted samples keeps the first record of each hour. */
  lemma HourlyOfSorted(tz: int, s: seq<Sample>, v: seq<Row>)
    requires |v| >= 2 && Views(s) == SortBy(v, RowTime)
    ensures Views(Pick(s, Starts(SampleHours(tz, s)))) == HourlyMerge(tz, v)
  {
    HoursOfViews(tz, s);
    ViewsPick(s, Starts(SampleHours(tz, s)));
  }

  // ---------------------------------------------------------------------------
  // What the reduction keeps

  /** Time order never puts a later hour first. */
  lemma HoursNonDecreasing(tz: int, d: seq<Row>)
    requires SortedBy(d, RowTime)
    ensures NonDecreasing(HourKeys(tz, d))
  {
    var k := HourKeys(tz, d);
    forall i, j | 0 <= i < j < |d|
      ensures k[i] <= k[j]
    {
      assert RowTime(d[i]) <= RowTime(d[j]);
      Monotone(tz, d[i].createdAt, d[j].createdAt);
    }
  }

  /** The kept records are in strictly increasing hours, hence strictly increasing times. */
  lemma HourlyAscending(tz: int, v: seq<Row>)
    requires |v| >= 2
    ensures var h := HourlyMerge(tz, v);
      forall k, l :: 0 <= k < l < |h| ==> Hour(tz, h[k].createdAt) < Hour(tz, h[l].createdAt)
    ensures StrictlySortedBy(HourlyMerge(tz, v), RowTime)
  {
    var asc := SortBy(v, RowTime);
    var keys := HourKeys(tz, asc);
    SortByFacts(v, RowTime);
    HoursNonDecreasing(tz, asc);
    OpenersAscending(keys);
    var h := HourlyMerge(tz, v);
    forall k, l | 0 <= k < l < |h|
      ensures RowTime(h[k]) < RowTime(h[l])
    {
      if RowTime(h[l]) <= RowTime(h[k]) {
        Monotone(tz, h[l].createdAt, h[k].createdAt);
      }
    }
  }

  /**
   * Every record of the input has its hour kept, by a record of the input
   * that is no later than it: the first one of its hour.
   */
  lemma HourlyFirst(tz: int, v: seq<Row>, x: Row)
    requires |v| >= 2 && x in v
    ensures exists r :: r in HourlyMerge(tz, v) && r in v && Hour(tz, r.createdAt) == Hour(tz, x.createdAt) && r.createdAt <= x.createdAt
  {
    var asc := SortBy(v, RowTime);
    var keys := HourKeys(tz, asc);
    var j := InAscending(v, x);
    var k := HasOpener(keys, j);
    var s := Starts(keys)[k];
    var r := asc[s];
    assert HourlyMerge(tz, v)[k] == r;
    AscendingMember(v, s);
    AscendingOlder(v, s, j);
  }

  /** A record of the input has a place in the oldest-first order. */
  lemma InAscending(v: seq<Row>, x: Row) returns (j: nat)
    requires x in v
    ensures j < |SortBy(v, RowTime)| && SortBy(v, RowTime)[j] == x
  {
    SortByFacts(v, RowTime);
    assert x in multiset(SortBy(v, RowTime));
    j :| 0 <= j < |SortBy(v, RowTime)| && SortBy(v, RowTime)[j] == x;
  }

  /** Every record of the oldest-first order is a record of the input. */
  lemma AscendingMember(v: seq<Row>, i: nat)
    requires i < |SortBy(v, RowTime)|
    ensures SortBy(v, RowTime)[i] in v
  {
    SortByFacts(v, RowTime);
    assert SortBy(v, RowTime)[i] in multiset(v);
  }

  /** In the oldest-first order, later positions are no older. */
  lemma AscendingOlder(v: seq<Row>, i: nat, j: nat)
    requires i <= j < |SortBy(v, RowTime)|
    ensures SortBy(v, RowTime)[i].createdAt <= SortBy(v, RowTime)[j].createdAt
  {
    SortByFacts(v, RowTime);
    if i < j {
      assert RowTime(SortBy(v, RowTime)[i]) <= RowTime(SortBy(v, RowTime)[j]);
    }
  }

  /** Every kept record is a record of the input, and the first of its hour. */
  lemma HourlyKept(tz: int, v: seq<Row>, k: nat)
    requires |v| >= 2 && k < |HourlyMerge(tz, v)|
    ensures var r := HourlyMerge(tz, v)[k];
      r in v && forall x :: x in v && Hour(tz, x.createdAt) == Hour(tz, r.createdAt) ==> r.createdAt <= x.createdAt
  {
    var asc := SortBy(v, RowTime);
    var keys := HourKeys(tz, asc);
    var s := Starts(keys)[k];
    SortByFacts(v, RowTime);
    assert HourlyMerge(tz, v)[k] == asc[s];
    assert asc[s] in multiset(v);
    OpenerAt(keys, k);
    HoursNonDecreasing(tz, asc);
    forall x | x in v && Hour(tz, x.createdAt) == Hour(tz, asc[s].createdAt)
      ensures asc[s].createdAt <= x.createdAt
    {
      assert x in multiset(v);
      assert x in multiset(asc);
      FirstOfRun(tz, asc, s, x);
    }
  }

  /** The opener of an hour run in an oldest-first sequence is no later than anything of its hour. */
  lemma FirstOfRun(tz: int, asc: seq<Row>, s: nat, x: Row)
    requires SortedBy(asc, RowTime) && s < |asc| && IsStart(HourKeys(tz, asc), s)
    requires x in asc && Hour(tz, x.createdAt) == Hour(tz, asc[s].createdAt)
    ensures asc[s].createdAt <= x.createdAt
  {
    var keys := HourKeys(tz, asc);
    var j :| 0 <= j < |asc| && asc[j] == x;
    HoursNonDecreasing(tz, asc);
    OpenerFirst(keys, s, j);
    if s < j {
      assert RowTime(asc[s]) <= RowTime(asc[j]);
    }
  }
}
