/**
 * `fetchEnergyData`: the recent records of every gear, newest first. In
 * minute mode they are returned as they are; in hour mode a pointer walk
 * thins them to one record per run of records in the same clock hour. The
 * walk overwrites the current slot while the hour stays the same, and when
 * the hour changes it only advances the pointer, so the record that opened
 * the new hour is skipped and the record after it opens the next slot.
 */
module EnergySeries {
  import opened Wrappers
  import opened Frame
  import opened Calendar
  import opened Sequences
  import opened Hourly

  datatype Step = HourStep | MinuteStep

  const STEP_ERROR: string := "step must be day or minute"

  /** Only 'hour' and 'minute' are accepted. */
  function ParseStep(step: string): Result<Step, string> {
    if step == "hour" then Ok(HourStep)
    else if step == "minute" then Ok(MinuteStep)
    else Err(STEP_ERROR)
  }

  /** The records of one gear, in their order. */
  function OfGear(rows: seq<Row>, gid: nat): seq<Row> {
    Filter(rows, (r: Row) => r.gearId == gid)
  }

  /**
   * What the hour-mode walk keeps of newest-first records from position `i`
   * on: the last record of the hour run that starts at `i`, and then the
   * same from just after the record that ended the run.
   */
  function HourRuns(tz: int, rows: seq<Row>, i: nat): seq<Row>
    decreases |rows| - i
  {
    if i >= |rows| then []
    else
      var e := RunEnd(HourKeys(tz, rows), i);
      [rows[e - 1]] + HourRuns(tz, rows, e + 1)
  }

  function Series(tz: int, step: Step, rows: seq<Row>): seq<Row> {
    match step
    case HourStep => HourRuns(tz, rows, 0)
    case MinuteStep => rows
  }

  /**
   * Where the hour-mode walk stands before record `i`: either the pointer is
   * past the end of `res` and the records from `i` on still yield the rest
   * of the series, or it is at the last slot, which holds the newest-so-far
   * last record of the hour run that began at `s`.
   */
  ghost predicate Walked(tz: int, rows: seq<Row>, i: nat, res: seq<Row>, pointer: nat, s: nat) {
    && i <= |rows|
    && (pointer == |res| || pointer == |res| - 1)
    && (pointer == |res| ==> res + HourRuns(tz, rows, i) == HourRuns(tz, rows, 0))
    && (pointer == |res| - 1 ==>
          && s < i
          && (forall j :: s <= j < i ==> Hour(tz, rows[j].createdAt) == Hour(tz, rows[s].createdAt))
          && res[pointer] == rows[i - 1]
          && res[..pointer] + HourRuns(tz, rows, s) == HourRuns(tz, rows, 0))
  }

  /** The pointer walk of hour mode over one gear's newest-first records. */
  method HourSeries(tz: int, rows: seq<Row>) returns (res: seq<Row>)
    ensures res == HourRuns(tz, rows, 0)
  {
    res := [];
    var pointer := 0;
    ghost var s := 0;
    for i := 0 to |rows|
      invariant Walked(tz, rows, i, res, pointer, s)
    {
      var spf := rows[i];
      if pointer >= |res| {
        // the slot is empty: the record opens it
        WalkOpen(tz, rows, i, res, pointer);
        res := res + [spf];
        s := i;
      } else if Hour(tz, res[pointer].createdAt) == Hour(tz, spf.createdAt) {
        WalkSame(tz, rows, i, res, pointer, s);
        res := res[pointer := spf];
      } else {
        WalkNext(tz, rows, i, res, pointer, s);
        pointer := pointer + 1;
      }
    }
    WalkEnd(tz, rows, res, pointer, s);
  }

  lemma WalkOpen(tz: int, rows: seq<Row>, i: nat, res: seq<Row>, pointer: nat)
    requires i < |rows| && pointer == |res| && Walked(tz, rows, i, res, pointer, 0)
    ensures Walked(tz, rows, i + 1, res + [rows[i]], pointer, i)
  {
    assert (res + [rows[i]])[..pointer] == res;
  }

  lemma WalkSame(tz: int, rows: seq<Row>, i: nat, res: seq<Row>, pointer: nat, s: nat)
    requires i < |rows| && pointer < |res| && Walked(tz, rows, i, res, pointer, s)
    requires Hour(tz, res[pointer].createdAt) == Hour(tz, rows[i].createdAt)
    ensures Walked(tz, rows, i + 1, res[pointer := rows[i]], pointer, s)
  {
    assert res[pointer := rows[i]][..pointer] == res[..pointer];
  }

  lemma WalkNext(tz: int, rows: seq<Row>, i: nat, res: seq<Row>, pointer: nat, s: nat)
    requires i < |rows| && pointer < |res| && Walked(tz, rows, i, res, pointer, s)
    requires Hour(tz, res[pointer].createdAt) != Hour(tz, rows[i].createdAt)
    ensures Walked(tz, rows, i + 1, res, pointer + 1, s)
  {
    CloseSlot(tz, rows, s, i, res, pointer);
  }

  lemma WalkEnd(tz: int, rows: seq<Row>, res: seq<Row>, pointer: nat, s: nat)
    requires Walked(tz, rows, |rows|, res, pointer, s)
    ensures res == HourRuns(tz, rows, 0)
  {
    if pointer == |res| - 1 {
      CloseSlot(tz, rows, s, |rows|, res, pointer);
    }
  }

  /** The last slot holds the last record of the run from `s` that ends at `e`: the series goes on after `e`. */
  lemma CloseSlot(tz: int, rows: seq<Row>, s: nat, e: nat, res: seq<Row>, pointer: nat)
    requires s < e <= |rows| && pointer == |res| - 1
    requires forall j :: s <= j < e ==> Hour(tz, rows[j].createdAt) == Hour(tz, rows[s].createdAt)
    requires e < |rows| ==> Hour(tz, rows[e].createdAt) != Hour(tz, rows[s].createdAt)
    requires res[pointer] == rows[e - 1]
    requires res[..pointer] + HourRuns(tz, rows, s) == HourRuns(tz, rows, 0)
    ensures res + HourRuns(tz, rows, e + 1) == HourRuns(tz, rows, 0)
  {
    CloseHour(tz, rows, s, e);
    AppendAfterLast(res, rows[e - 1], HourRuns(tz, rows, e + 1));
  }

  /** A run of one hour from `s` that ends at `e` leaves its last record, then goes on after `e`. */
  lemma CloseHour(tz: int, rows: seq<Row>, s: nat, e: nat)
    requires s < e <= |rows|
    requires forall j :: s <= j < e ==> Hour(tz, rows[j].createdAt) == Hour(tz, rows[s].createdAt)
    requires e < |rows| ==> Hour(tz, rows[e].createdAt) != Hour(tz, rows[s].createdAt)
    ensures HourRuns(tz, rows, s) == [rows[e - 1]] + HourRuns(tz, rows, e + 1)
  {
    RunEndIs(HourKeys(tz, rows), s, s + 1, e);
  }

  /**
   * `fetchEnergyData` over the records the query returned (by gear, newest
   * first): a bad step throws; otherwise every listed gear maps to its
   * series.
   */
  method FetchEnergyData(tz: int, step: string, gids: seq<nat>, energys: seq<Row>)
    returns (r: Result<map<nat, seq<Row>>, string>)
    ensures ParseStep(step).Err? ==> r == Err(STEP_ERROR)
    ensures ParseStep(step).Ok? ==> (
      && r.Ok?
      && (forall g :: g in r.value <==> g in gids)
      && (forall g :: g in r.value ==> r.value[g] == Series(tz, ParseStep(step).value, OfGear(energys, g))))
  {
    if step != "hour" && step != "minute" {
      return Err(STEP_ERROR);
    }
    var resultData: map<nat, seq<Row>> := map[];
    for k := 0 to |gids|
      invariant forall g :: g in resultData <==> g in gids[..k]
      invariant forall g :: g in resultData ==> resultData[g] == Series(tz, ParseStep(step).value, OfGear(energys, g))
    {
      var gid := gids[k];
      var gidSpecifices := OfGear(energys, gid);
      if step == "hour" {
        var series := HourSeries(tz, gidSpecifices);
        resultData := resultData[gid := series];
      } else {
        resultData := resultData[gid := gidSpecifices];
      }
      assert gids[..k + 1] == gids[..k] + [gid];
    }
    assert gids[..|gids|] == gids;
    return Ok(resultData);
  }

  // ---------------------------------------------------------------------------
  // What hour mode keeps

  /** Every run but the last costs at least two records, so at most half (rounded up) survive. */
  lemma {:induction false} HourRunsBound(tz: int, rows: seq<Row>, i: nat)
    requires i <= |rows| + 1
    ensures |HourRuns(tz, rows, i)| <= (|rows| + 1 - i) / 2
    decreases |rows| - i
  {
    if i < |rows| {
      HourRunsBound(tz, rows, RunEnd(HourKeys(tz, rows), i) + 1);
    }
  }

  /** The series is never longer than half the records, rounded up. */
  lemma HourSeriesBound(tz: int, rows: seq<Row>)
    ensures |HourRuns(tz, rows, 0)| <= (|rows| + 1) / 2
  {
    HourRunsBound(tz, rows, 0);
  }

  /**
   * On newest-first records the series holds one record per kept hour, the
   * hours strictly decreasing, none of them later than the hour at `i`.
   */
  lemma {:induction false} HourRunsDescending(tz: int, rows: seq<Row>, i: nat)
    requires NonIncreasing(HourKeys(tz, rows))
    ensures forall k, l :: 0 <= k < l < |HourRuns(tz, rows, i)| ==>
      Hour(tz, HourRuns(tz, rows, i)[k].createdAt) > Hour(tz, HourRuns(tz, rows, i)[l].createdAt)
    ensures i < |rows| ==> forall k :: 0 <= k < |HourRuns(tz, rows, i)| ==>
      Hour(tz, HourRuns(tz, rows, i)[k].createdAt) <= Hour(tz, rows[i].createdAt)
    decreases |rows| - i
  {
    if i < |rows| {
      var keys := HourKeys(tz, rows);
      var e := RunEnd(keys, i);
      var rest := HourRuns(tz, rows, e + 1);
      HourRunsDescending(tz, rows, e + 1);
      NextRunLower(tz, rows, i);
      var h := HourRuns(tz, rows, i);
      assert h == [rows[e - 1]] + rest;
      forall k, l | 0 <= k < l < |h|
        ensures Hour(tz, h[k].createdAt) > Hour(tz, h[l].createdAt)
      {
        if k > 0 {
          assert h[k] == rest[k - 1] && h[l] == rest[l - 1];
        } else {
          assert h[l] == rest[l - 1];
        }
      }
      forall k | 0 <= k < |h|
        ensures Hour(tz, h[k].createdAt) <= Hour(tz, rows[i].createdAt)
      {
        if k > 0 {
          assert h[k] == rest[k - 1];
        }
      }
    }
  }

  /** The record that closes the run from `i` has the hour of `i`; the record after the one that ended it is earlier. */
  lemma NextRunLower(tz: int, rows: seq<Row>, i: nat)
    requires i < |rows| && NonIncreasing(HourKeys(tz, rows))
    ensures var e := RunEnd(HourKeys(tz, rows), i);
      && Hour(tz, rows[e - 1].createdAt) == Hour(tz, rows[i].createdAt)
      && (e + 1 < |rows| ==> Hour(tz, rows[e + 1].createdAt) < Hour(tz, rows[i].createdAt))
  {
    var keys := HourKeys(tz, rows);
    var e := RunEnd(keys, i);
    RunEndFacts(keys, i);
    assert keys[e - 1] == keys[i];
    if e + 1 < |rows| {
      assert keys[e + 1] <= keys[e] < keys[i];
    }
  }

  /**
   * Hours 5, 5, 4, 3 newest first: hour 5 keeps its older record, the only
   * record of hour 4 is skipped because it ended the run, and the record of
   * hour 3 opens the next slot.
   */
  lemma SkippedHour(tz: int, rows: seq<Row>)
    requires |rows| == 4 && HourKeys(tz, rows) == [5, 5, 4, 3]
    ensures HourRuns(tz, rows, 0) == [rows[1], rows[3]]
    ensures forall r :: r in HourRuns(tz, rows, 0) ==> Hour(tz, r.createdAt) != 4
  {
    var keys := HourKeys(tz, rows);
    RunEndIs(keys, 0, 1, 2);
    RunEndIs(keys, 3, 4, 4);
    assert HourRuns(tz, rows, 3) == [rows[3]];
  }
}
