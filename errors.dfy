/**
 * The fault searches over stored records: the adjacent-pair scan of
 * `getErrorLightSearch`, which reports a record every time one of the five
 * light-source fault counters went up from the record before it, and the
 * filter of `getErrorMaxLightSearch2Month`, which drops gears without any
 * failure.
 */
module ErrorSearch {
  import opened Wrappers
  import opened Frame
  import opened Sequences

  /** The fault counters the pair scan compares, in the order it compares them. */
  function FaultCounters(r: Row): (c: seq<real>)
    ensures |c| == 5
  {
    [ r.reading.lightSourceFailureCount,
      r.reading.lightSourceOpenCount,
      r.reading.lightSourceShortCount,
      r.reading.lightSourceThermalShutdownCount,
      r.reading.lightSourceThermalDeratingCount ]
  }

  /** How many of the first `k` counters are larger in `next` than in `cur`. */
  function Rises(cur: seq<real>, next: seq<real>, k: nat): (n: nat)
    requires k <= |cur| && k <= |next|
    ensures n <= k
  {
    if k == 0 then 0
    else Rises(cur, next, k - 1) + (if next[k - 1] > cur[k - 1] then 1 else 0)
  }

  /** How many times the pair scan reports `next` when it follows `cur`. */
  function Increased(cur: Row, next: Row): nat {
    Rises(FaultCounters(cur), FaultCounters(next), 5)
  }

  /** `n` copies of `x`. */
  function Repeat(x: nat, n: nat): (r: seq<nat>)
    ensures |r| == n
    ensures forall k :: 0 <= k < n ==> r[k] == x
  {
    seq(n, _ => x)
  }

  /**
   * The positions the scan reports while it looks at the pairs that end
   * below `m`: for the pair ending at `i`, position `i` once per risen
   * counter.
   */
  function ReportedBelow(d: seq<Row>, m: nat): (r: seq<nat>)
    requires m <= |d|
    ensures Indices(r, m)
  {
    if m < 2 then []
    else ReportedBelow(d, m - 1) + Repeat(m - 1, Increased(d[m - 2], d[m - 1]))
  }

  /** What `getErrorLightSearch` returns for the oldest-first records `d` of one gear. */
  function Reported(d: seq<Row>): seq<Row> {
    Pick(d, ReportedBelow(d, |d|))
  }

  /**
   * The scan itself: for every record that has a successor, push the
   * successor once for each counter that is larger in it.
   */
  method ErrorLightSearch(datas: seq<Row>) returns (points: seq<Row>)
    ensures points == Reported(datas)
  {
    points := [];
    var index := 0;
    while index < |datas|
      invariant 0 <= index <= |datas|
      invariant points == Pick(datas, ReportedBelow(datas, if index < |datas| then index + 1 else index))
    {
      if index + 1 < |datas| {
        var current, next := datas[index], datas[index + 1];
        var ck, nk := FaultCounters(current), FaultCounters(next);
        ghost var before := ReportedBelow(datas, index + 1);
        for k := 0 to 5
          invariant points == Pick(datas, before + Repeat(index + 1, Rises(ck, nk, k)))
        {
          if nk[k] > ck[k] {
            PickSnoc(datas, before + Repeat(index + 1, Rises(ck, nk, k)), index + 1);
            assert before + Repeat(index + 1, Rises(ck, nk, k + 1))
              == before + Repeat(index + 1, Rises(ck, nk, k)) + [index + 1];
            points := points + [next];
          }
        }
      }
      index := index + 1;
    }
  }

  // ---------------------------------------------------------------------------
  // What the scan reports

  /** Reported positions are never the first one, and come in input order. */
  lemma {:induction false} ReportedOrder(d: seq<Row>, m: nat)
    requires m <= |d|
    ensures forall k :: 0 <= k < |ReportedBelow(d, m)| ==> 1 <= ReportedBelow(d, m)[k]
    ensures forall k, l :: 0 <= k < l < |ReportedBelow(d, m)| ==> ReportedBelow(d, m)[k] <= ReportedBelow(d, m)[l]
  {
    if m >= 2 {
      ReportedOrder(d, m - 1);
      var prev, rep := ReportedBelow(d, m - 1), Repeat(m - 1, Increased(d[m - 2], d[m - 1]));
      var r := ReportedBelow(d, m);
      assert r == prev + rep;
      forall k | 0 <= k < |r|
        ensures 1 <= r[k]
      {
        if k < |prev| {
          assert r[k] == prev[k];
        } else {
          assert r[k] == rep[k - |prev|];
        }
      }
      forall k, l | 0 <= k < l < |r|
        ensures r[k] <= r[l]
      {
        if l < |prev| {
          assert r[k] == prev[k] && r[l] == prev[l];
        } else if k < |prev| {
          assert r[k] == prev[k] < m - 1 == rep[l - |prev|] == r[l];
        } else {
          assert r[k] == rep[k - |prev|] == rep[l - |prev|] == r[l];
        }
      }
    }
  }

  lemma RepeatCount(x: nat, n: nat, y: nat)
    ensures multiset(Repeat(x, n))[y] == if y == x then n else 0
  {
    if n > 0 {
      assert Repeat(x, n) == Repeat(x, n - 1) + [x];
      RepeatCount(x, n - 1, y);
    }
  }

  /** The record at position `i` is reported exactly once per counter that rose into it. */
  lemma {:induction false} ReportedCount(d: seq<Row>, m: nat, i: nat)
    requires m <= |d|
    ensures multiset(ReportedBelow(d, m))[i] == if 1 <= i < m then Increased(d[i - 1], d[i]) else 0
  {
    if m >= 2 {
      ReportedCount(d, m - 1, i);
      RepeatCount(m - 1, Increased(d[m - 2], d[m - 1]), i);
    }
  }

  /** No counter rises from `cur` to `next`. */
  predicate Steady(cur: Row, next: Row) {
    forall k :: 0 <= k < 5 ==> FaultCounters(next)[k] <= FaultCounters(cur)[k]
  }

  lemma {:induction false} RisesZero(cur: seq<real>, next: seq<real>, k: nat)
    requires k <= |cur| && k <= |next|
    ensures Rises(cur, next, k) == 0 <==> forall j :: 0 <= j < k ==> next[j] <= cur[j]
  {
    if k > 0 {
      RisesZero(cur, next, k - 1);
    }
  }

  /** The scan reports nothing exactly when no counter ever rises between neighbours. */
  lemma NothingReported(d: seq<Row>)
    ensures Reported(d) == [] <==> forall i :: 1 <= i < |d| ==> Steady(d[i - 1], d[i])
  {
    var r := ReportedBelow(d, |d|);
    forall i | 1 <= i < |d|
      ensures multiset(r)[i] == 0 <==> Steady(d[i - 1], d[i])
    {
      ReportedCount(d, |d|, i);
      RisesZero(FaultCounters(d[i - 1]), FaultCounters(d[i]), 5);
    }
    if r != [] {
      ReportedOrder(d, |d|);
      var i := r[0];
      assert Indices(r, |d|);
      assert 1 <= i < |d|;
      assert i in multiset(r);
      assert !Steady(d[i - 1], d[i]);
    } else {
      forall i | 1 <= i < |d|
        ensures Steady(d[i - 1], d[i])
      {
        assert multiset(r)[i] == 0;
      }
    }
  }

  /** At most five reports per pair. */
  lemma {:induction false} ReportedBound(d: seq<Row>, m: nat)
    requires 1 <= m <= |d|
    ensures |ReportedBelow(d, m)| <= 5 * (m - 1)
  {
    if m >= 2 {
      ReportedBound(d, m - 1);
    }
  }

  /** Failure counters 0, 1, 1 over three records: only the second record is reported. */
  lemma OneRise(d: seq<Row>)
    requires |d| == 3
    requires FaultCounters(d[0]) == [0.0, 0.0, 0.0, 0.0, 0.0]
    requires FaultCounters(d[1]) == [1.0, 0.0, 0.0, 0.0, 0.0]
    requires FaultCounters(d[2]) == [1.0, 0.0, 0.0, 0.0, 0.0]
    ensures Reported(d) == [d[1]]
  {
    RisesOf(FaultCounters(d[0]), FaultCounters(d[1]));
    RisesOf(FaultCounters(d[1]), FaultCounters(d[2]));
    assert ReportedBelow(d, 2) == [1];
    assert ReportedBelow(d, 3) == [1];
  }

  /** The count of risen counters, written out for five. */
  lemma RisesOf(cur: seq<real>, next: seq<real>)
    requires |cur| == 5 && |next| == 5
    ensures Rises(cur, next, 5)
      == (if next[0] > cur[0] then 1 else 0) + (if next[1] > cur[1] then 1 else 0) + (if next[2] > cur[2] then 1 else 0)
       + (if next[3] > cur[3] then 1 else 0) + (if next[4] > cur[4] then 1 else 0)
  {
    assert Rises(cur, next, 1) == if next[0] > cur[0] then 1 else 0;
    assert Rises(cur, next, 2) == Rises(cur, next, 1) + if next[1] > cur[1] then 1 else 0;
    assert Rises(cur, next, 3) == Rises(cur, next, 2) + if next[2] > cur[2] then 1 else 0;
    assert Rises(cur, next, 4) == Rises(cur, next, 3) + if next[3] > cur[3] then 1 else 0;
  }

  /** Two counters rising in the same pair report the record twice. */
  lemma TwoRises(d: seq<Row>)
    requires |d| == 2
    requires FaultCounters(d[0]) == [0.0, 0.0, 0.0, 0.0, 0.0]
    requires FaultCounters(d[1]) == [1.0, 2.0, 0.0, 0.0, 0.0]
    ensures Reported(d) == [d[1], d[1]]
  {
    RisesOf(FaultCounters(d[0]), FaultCounters(d[1]));
    assert ReportedBelow(d, 2) == [1, 1];
  }

  // ---------------------------------------------------------------------------
  // The gears with failures

  /** A gear has failures unless both its lamp failure count and its gear failure count are zero. */
  predicate HasFailures(r: Row) {
    !(r.reading.lightSourceFailureCount == 0.0 && r.reading.controlGearFailureCount == 0.0)
  }

  /**
   * The filter at the end of `getErrorMaxLightSearch2Month` over one looked-up
   * record per gear. A gear without records in the window has `null` there,
   * and reading a field of it throws a `TypeError`.
   */
  function WithFailures(datas: seq<Option<Row>>): (r: Result<seq<Row>, string>)
    ensures r.Ok? <==> forall i :: 0 <= i < |datas| ==> datas[i].Some?
    ensures r.Ok? ==> forall k :: 0 <= k < |r.value| ==> Some(r.value[k]) in datas && HasFailures(r.value[k])
    ensures r.Ok? ==> forall i :: 0 <= i < |datas| && HasFailures(datas[i].value) ==> datas[i].value in r.value
    ensures r.Ok? ==> r.value == Filter(Values(datas), HasFailures)
  {
    if datas == [] then Ok([])
    else if datas[0].None? then Err("TypeError")
    else
      var rest := WithFailures(datas[1..]);
      if rest.Err? then rest
      else
        assert forall i :: 1 <= i < |datas| ==> datas[i] == datas[1..][i - 1];
        assert Values(datas)[1..] == Values(datas[1..]);
        Ok((if HasFailures(datas[0].value) then [datas[0].value] else []) + rest.value)
  }

  /** The looked-up records, when every gear has one. */
  function Values(datas: seq<Option<Row>>): (v: seq<Row>)
    requires forall i :: 0 <= i < |datas| ==> datas[i].Some?
    ensures |v| == |datas| && forall i :: 0 <= i < |datas| ==> Some(v[i]) == datas[i]
  {
    seq(|datas|, i requires 0 <= i < |datas| && datas[i].Some? => datas[i].value)
  }
}
