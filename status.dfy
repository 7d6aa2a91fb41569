/**
 * `fetchStatus`: for every gear with records since the start of the day, the
 * newest record together with what changed since the day's oldest record.
 * The records come from the query newest first; `since` is the number of
 * seconds from the start of the day to the moment of the request.
 */
module Status {
  import opened Wrappers
  import opened Frame
  import opened EnergySeries

  datatype GearStatus = GearStatus(
    latest: Row,               // every field of the newest record
    isDC: bool,
    onTimeRate: Option<real>,  // None: a division by zero seconds, which JavaScript turns into Infinity or NaN
    startCount: real,
    energyUsage: real)

  /** What is kept of a gear's records: up to two as they are, otherwise the newest and the oldest. */
  function Trimmed(g: seq<Row>): seq<Row> {
    if |g| < 3 then g else [g[0], g[|g| - 1]]
  }

  /** `groupingData[gear_id][1] || groupingData[gear_id][0]`: the second kept record, else the first. */
  function Baseline(t: seq<Row>): Row
    requires t != []
  {
    if |t| > 1 then t[1] else t[0]
  }

  /** The status built from the newest record `last` against the baseline `first`. */
  function Delta(last: Row, first: Row, since: real): (st: GearStatus)
    ensures st.latest == last
    ensures st.isDC <==> last.reading.controlGearVoltageFrequence == 0.0
  {
    GearStatus(
      last,
      last.reading.controlGearVoltageFrequence == 0.0,
      if since == 0.0 then None else Some((last.reading.lightSourceOnTime - first.reading.lightSourceOnTime) / since),
      last.reading.lightSourceStartCount - first.reading.lightSourceStartCount,
      last.reading.apparentEnergy - first.reading.apparentEnergy)
  }

  /**
   * `fetchStatus` over the records of the day: the kept records per listed
   * gear, then a status for every gear that has any. Each status compares
   * the newest record of the gear with its oldest.
   */
  method FetchStatus(gids: seq<nat>, statusList: seq<Row>, since: real) returns (uniqueStatus: map<nat, GearStatus>)
    ensures forall g :: g in uniqueStatus <==> g in gids && OfGear(statusList, g) != []
    ensures forall g :: g in uniqueStatus ==>
      var rows := OfGear(statusList, g);
      uniqueStatus[g] == Delta(rows[0], rows[|rows| - 1], since)
  {
    var groupingData := KeepPerGear(gids, statusList);
    uniqueStatus := StatusPerGear(groupingData, since);
    forall g | g in uniqueStatus
      ensures uniqueStatus[g] == Delta(OfGear(statusList, g)[0], OfGear(statusList, g)[|OfGear(statusList, g)| - 1], since)
    {
      BaselineIsOldest(OfGear(statusList, g));
    }
  }

  /** The first loop of `fetchStatus`: every listed gear keeps its trimmed records. */
  method KeepPerGear(gids: seq<nat>, statusList: seq<Row>) returns (groupingData: map<nat, seq<Row>>)
    ensures forall g :: g in groupingData <==> g in gids
    ensures forall g :: g in groupingData ==> groupingData[g] == Trimmed(OfGear(statusList, g))
  {
    groupingData := map[];
    for k := 0 to |gids|
      invariant forall g :: g in groupingData <==> g in gids[..k]
      invariant forall g :: g in groupingData ==> groupingData[g] == Trimmed(OfGear(statusList, g))
    {
      var gid := gids[k];
      var rows := OfGear(statusList, gid);
      if |rows| < 3 {
        groupingData := groupingData[gid := rows];
      } else {
        groupingData := groupingData[gid := [rows[0], rows[|rows| - 1]]];
      }
      assert gids[..k + 1] == gids[..k] + [gid];
    }
    assert gids[..|gids|] == gids;
  }

  /** The second loop of `fetchStatus`: a status for every gear with kept records, from the first kept against the baseline. */
  method StatusPerGear(groupingData: map<nat, seq<Row>>, since: real) returns (uniqueStatus: map<nat, GearStatus>)
    ensures forall g :: g in uniqueStatus <==> g in groupingData && groupingData[g] != []
    ensures forall g :: g in uniqueStatus ==> uniqueStatus[g] == Delta(groupingData[g][0], Baseline(groupingData[g]), since)
  {
    uniqueStatus := map[];
    var pending := groupingData.Keys;
    while pending != {}
      invariant pending <= groupingData.Keys
      invariant forall g :: g in uniqueStatus <==> g in groupingData && g !in pending && groupingData[g] != []
      invariant forall g :: g in uniqueStatus ==> uniqueStatus[g] == Delta(groupingData[g][0], Baseline(groupingData[g]), since)
      decreases pending
    {
      var gearId :| gearId in pending;
      pending := pending - {gearId};
      var kept := groupingData[gearId];
      if kept == [] {
        // `lastOne` is undefined: the gear has no status
        continue;
      }
      var lastOne := kept[0];
      var dayFirstOne := Baseline(kept);
      uniqueStatus := uniqueStatus[gearId := Delta(lastOne, dayFirstOne, since)];
    }
  }

  /** Whatever the number of records, the baseline is the oldest one and the first kept is the newest. */
  lemma BaselineIsOldest(g: seq<Row>)
    requires g != []
    ensures Trimmed(g) != [] && Trimmed(g)[0] == g[0]
    ensures Baseline(Trimmed(g)) == g[|g| - 1]
  {
  }

  /** A gear with a single record compares it with itself: nothing changed. */
  lemma SingleRecord(r: Row, since: real)
    ensures Delta(r, r, since).startCount == 0.0 && Delta(r, r, since).energyUsage == 0.0
    ensures since != 0.0 ==> Delta(r, r, since).onTimeRate == Some(0.0)
  {
  }

  /**
   * The on-time rate is not capped: 30000 more seconds of lamp time over the
   * first 100 seconds of the day give 300.
   */
  lemma UncappedRate(last: Row, first: Row)
    requires last.reading.lightSourceOnTime - first.reading.lightSourceOnTime == 30000.0
    ensures Delta(last, first, 100.0).onTimeRate == Some(300.0)
  {
  }
}
