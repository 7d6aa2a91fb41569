/**
 * Stored records as the grouping code holds them: plain objects fetched from
 * the database and shared between the functions a request calls. The only
 * field any of them writes is `device_arc`, so a sample is an object with an
 * immutable row and a mutable arc level; an array of samples is a JavaScript
 * array of those objects, which `sort` reorders in place.
 */
module Samples {
  import opened Frame
  import opened Sequences

  class Sample {
    const row: Row
    var deviceArc: real

    constructor (row: Row)
      ensures this.row == row && deviceArc == row.deviceArc
    {
      this.row := row;
      deviceArc := row.deviceArc;
    }
  }

  function WithArc(r: Row, arc: real): Row {
    r.(deviceArc := arc)
  }

  /** What a sample currently reads as: its row with the arc level it holds now. */
  function View(x: Sample): Row
    reads x
  {
    WithArc(x.row, x.deviceArc)
  }

  function Views(s: seq<Sample>): (r: seq<Row>)
    reads s
    ensures |r| == |s|
    ensures forall i :: 0 <= i < |s| ==> r[i] == View(s[i])
  {
    seq(|s|, i requires 0 <= i < |s| reads s => View(s[i]))
  }

  function RefTime(x: Sample): int {
    x.row.createdAt
  }

  function NegRefTime(x: Sample): int {
    -x.row.createdAt
  }

  function RowTime(r: Row): int {
    r.createdAt
  }

  function NegRowTime(r: Row): int {
    -r.createdAt
  }

  /** No object occurs twice. */
  predicate Distinct<T(==)>(s: seq<T>) {
    forall i, j :: 0 <= i < j < |s| ==> s[i] != s[j]
  }

  /**
   * `array.sort((x, y) => key(x) - key(y))`: the array is reordered in place
   * into the stable sort of what it held. `kb` is the same key read off a
   * sample's view, so the views come out sorted the same way.
   */
  method SortArray(a: array<Sample>, key: Sample -> int, ghost kb: Row -> int)
    requires forall y: Sample :: key(y) == kb(View(y))
    modifies a
    ensures a[..] == SortBy(old(a[..]), key)
    ensures Views(a[..]) == SortBy(old(Views(a[..])), kb)
  {
    ViewsSort(a[..], key, kb);
    var sorted := SortBy(a[..], key);
    forall i | 0 <= i < a.Length {
      a[i] := sorted[i];
    }
  }

  /** Sorting samples by their time and then looking at them is looking at them sorted by time. */
  lemma {:induction false} ViewsInsert(x: Sample, s: seq<Sample>, ka: Sample -> int, kb: Row -> int)
    requires forall y: Sample :: ka(y) == kb(View(y))
    ensures Views(InsertBy(x, s, ka)) == InsertBy(View(x), Views(s), kb)
    decreases |s|
  {
    if s == [] || ka(x) < ka(s[0]) {
      ViewsInsertFront(x, s, ka, kb);
    } else {
      ViewsInsert(x, s[1..], ka, kb);
      assert ka(x) == kb(View(x)) && ka(s[0]) == kb(View(s[0]));
      ViewsInsertPast(x, s, ka, kb);
    }
  }

  lemma ViewsInsertFront(x: Sample, s: seq<Sample>, ka: Sample -> int, kb: Row -> int)
    requires forall y: Sample :: ka(y) == kb(View(y))
    requires s == [] || ka(x) < ka(s[0])
    ensures Views(InsertBy(x, s, ka)) == InsertBy(View(x), Views(s), kb)
  {
    ViewsCons(x, s);
    if s != [] {
      assert ka(x) == kb(View(x)) && ka(s[0]) == kb(Views(s)[0]);
    }
  }

  lemma ViewsInsertPast(x: Sample, s: seq<Sample>, ka: Sample -> int, kb: Row -> int)
    requires s != [] && ka(x) >= ka(s[0])
    requires ka(x) == kb(View(x)) && ka(s[0]) == kb(View(s[0]))
    requires Views(InsertBy(x, s[1..], ka)) == InsertBy(View(x), Views(s[1..]), kb)
    ensures Views(InsertBy(x, s, ka)) == InsertBy(View(x), Views(s), kb)
  {
    var vs := Views(s);
    var rest := InsertBy(x, s[1..], ka);
    ViewsTail(s);
    calc {
      Views(InsertBy(x, s, ka));
      Views([s[0]] + rest);
      { ViewsCons(s[0], rest); }
      [View(s[0])] + Views(rest);
      [vs[0]] + InsertBy(View(x), vs[1..], kb);
      InsertBy(View(x), vs, kb);
    }
  }

  lemma ViewsTail(s: seq<Sample>)
    requires s != []
    ensures Views(s)[1..] == Views(s[1..])
  {
    var a, b := Views(s)[1..], Views(s[1..]);
    assert |a| == |b|;
    forall i | 0 <= i < |a|
      ensures a[i] == b[i]
    {
      assert a[i] == View(s[i + 1]);
      assert b[i] == View(s[1..][i]);
    }
  }

  lemma ViewsCons(x: Sample, s: seq<Sample>)
    ensures Views([x] + s) == [View(x)] + Views(s)
  {
  }

  lemma {:induction false} ViewsSort(s: seq<Sample>, ka: Sample -> int, kb: Row -> int)
    requires forall y: Sample :: ka(y) == kb(View(y))
    ensures Views(SortBy(s, ka)) == SortBy(Views(s), kb)
    decreases |s|
  {
    if s != [] {
      var init := s[..|s| - 1];
      ViewsSort(init, ka, kb);
      ViewsInsert(s[|s| - 1], SortBy(init, ka), ka, kb);
      assert Views(s)[..|s| - 1] == Views(init);
    }
  }

  lemma ViewsPick(s: seq<Sample>, idx: seq<nat>)
    requires Indices(idx, |s|)
    ensures Views(Pick(s, idx)) == Pick(Views(s), idx)
  {
  }

  /** A distinct sequence keeps every object exactly once. */
  lemma {:induction false} DistinctCount<T>(s: seq<T>, x: T)
    requires Distinct(s)
    ensures multiset(s)[x] <= 1
    decreases |s|
  {
    if s != [] {
      var init := s[..|s| - 1];
      assert s == init + [s[|s| - 1]];
      DistinctCount(init, x);
      if x == s[|s| - 1] {
        assert x !in init;
      }
    }
  }

  /** Reordering keeps objects distinct. */
  lemma DistinctPerm<T>(s: seq<T>, t: seq<T>)
    requires Distinct(s) && multiset(s) == multiset(t)
    ensures Distinct(t)
  {
    forall i, j | 0 <= i < j < |t|
      ensures t[i] != t[j]
    {
      if t[i] == t[j] {
        TwiceCount(t, i, j);
        DistinctCount(s, t[i]);
      }
    }
  }

  /** A reordering holds no new objects. */
  lemma PermMembers<T>(s: seq<T>, t: seq<T>)
    requires multiset(s) == multiset(t)
    ensures forall x :: x in t ==> x in s
  {
    forall x | x in t
      ensures x in s
    {
      assert x in multiset(t);
    }
  }

  /** Picking elements and sorting them yields nothing new. */
  lemma SortPickMembers<T>(s: seq<T>, idx: seq<nat>, key: T -> int)
    requires Indices(idx, |s|)
    ensures forall x :: x in SortBy(Pick(s, idx), key) ==> x in s
  {
    var p := Pick(s, idx);
    SortByFacts(p, key);
    PermMembers(p, SortBy(p, key));
  }

  lemma TwiceCount<T>(t: seq<T>, i: nat, j: nat)
    requires i < j < |t| && t[i] == t[j]
    ensures multiset(t)[t[i]] >= 2
  {
    var x := t[i];
    assert t == t[..i] + [x] + t[i + 1..j] + [x] + t[j + 1..];
  }
}
