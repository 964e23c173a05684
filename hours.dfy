/**
 * The opening hours of a business page (scraper.py:138-146): the stripped day
 * labels of the table's `<th>` cells are paired by position with the stripped
 * texts of every `<td>` row's entries, as `dict(zip(days, hours))`.
 */
module BusinessHours {
  import opened Text
  import opened Seqs

  /**
   * The text of the hours table: one `<p>` text per `<th>` cell and, per `<td>`
   * row, one `<p>` text per `<ul>` entry.
   */
  datatype HoursTable = HoursTable(dayCells: seq<string>, rowCells: seq<seq<string>>)

  function Min(a: nat, b: nat): nat
  {
    if a <= b then a else b
  }

  /** Python's `zip`: pairs by position, as long as the shorter argument. */
  function Zip<A, B>(xs: seq<A>, ys: seq<B>): (r: seq<(A, B)>)
    ensures |r| == Min(|xs|, |ys|)
    ensures forall i | 0 <= i < |r| :: r[i] == (xs[i], ys[i])
  {
    seq(Min(|xs|, |ys|), i requires 0 <= i < Min(|xs|, |ys|) => (xs[i], ys[i]))
  }

  /** Python's `dict(pairs)`: inserted left to right, so a later key overwrites an earlier one. */
  function DictOf<K, V>(ps: seq<(K, V)>): map<K, V>
    decreases |ps|
  {
    if ps == [] then map[]
    else DictOf(ps[..|ps| - 1])[ps[|ps| - 1].0 := ps[|ps| - 1].1]
  }

  /** `[row_text.strip() for ...]` for every row. */
  function StripRows(rows: seq<seq<string>>): (r: seq<seq<string>>)
    ensures |r| == |rows|
    ensures forall i | 0 <= i < |rows| :: r[i] == StripAll(rows[i])
  {
    seq(|rows|, i requires 0 <= i < |rows| => StripAll(rows[i]))
  }

  /** The hour texts in table order: every row's entries, stripped, one row after another. */
  function HourTexts(rows: seq<seq<string>>): seq<string>
  {
    Concat(StripRows(rows))
  }

  /** `dict(zip(days, hours))` */
  function PairHours(days: seq<string>, hours: seq<string>): map<string, string>
  {
    DictOf(Zip(days, hours))
  }

  /** The map stored under `hours` for a table that was found. */
  function HoursMap(t: HoursTable): map<string, string>
  {
    PairHours(StripAll(t.dayCells), HourTexts(t.rowCells))
  }

  /**
   * The `for row in ...: hours.extend(...)` loop: the hour texts of all rows,
   * stripped, in order.
   */
  method CollectHours(rows: seq<seq<string>>) returns (hours: seq<string>)
    ensures hours == HourTexts(rows)
    ensures |hours| == TotalLength(StripRows(rows))
  {
    hours := [];
    var k := 0;
    while k < |rows|
      invariant 0 <= k <= |rows|
      invariant hours == Concat(StripRows(rows[..k]))
    {
      assert StripRows(rows[..k + 1])[..k] == StripRows(rows[..k]);
      hours := hours + StripAll(rows[k]);
      k := k + 1;
    }
    assert rows[..k] == rows;
    ConcatLength(StripRows(rows));
  }

  /** A key of `dict(pairs)` is a key of some pair, and every pair's key is a key. */
  lemma {:induction false} DictOfKeys<K, V>(ps: seq<(K, V)>, k: K)
    ensures k in DictOf(ps) <==> exists i | 0 <= i < |ps| :: ps[i].0 == k
    decreases |ps|
  {
    if ps != [] {
      var init := ps[..|ps| - 1];
      DictOfKeys(init, k);
      if exists i | 0 <= i < |init| :: init[i].0 == k {
        var i :| 0 <= i < |init| && init[i].0 == k;
        assert ps[i].0 == k;
      }
      if exists i | 0 <= i < |ps| :: ps[i].0 == k {
        var i :| 0 <= i < |ps| && ps[i].0 == k;
        if i < |init| {
          assert init[i].0 == k;
        }
      }
    }
  }

  /** `dict(pairs)` has at most one entry per pair. */
  lemma {:induction false} DictOfSize<K, V>(ps: seq<(K, V)>)
    ensures |DictOf(ps)| <= |ps|
    decreases |ps|
  {
    if ps != [] {
      var init := ps[..|ps| - 1];
      var m := DictOf(init);
      var k := ps[|ps| - 1].0;
      DictOfSize(init);
      assert m[k := ps[|ps| - 1].1].Keys == m.Keys + {k};
      assert |m.Keys + {k}| <= |m.Keys| + |{k}|;
    }
  }

  /** The value of a key is the value of its last pair. */
  lemma {:induction false} DictOfLastWins<K, V>(ps: seq<(K, V)>, i: nat)
    requires i < |ps|
    requires forall j | i < j < |ps| :: ps[j].0 != ps[i].0
    ensures ps[i].0 in DictOf(ps) && DictOf(ps)[ps[i].0] == ps[i].1
    decreases |ps|
  {
    if i < |ps| - 1 {
      var init := ps[..|ps| - 1];
      DictOfLastWins(init, i);
    }
  }

  /** The hours map only has days among the first `min(|days|, |hours|)` labels as keys. */
  lemma PairHoursKeys(days: seq<string>, hours: seq<string>, d: string)
    ensures d in PairHours(days, hours) <==> d in days[..Min(|days|, |hours|)]
  {
    var z := Zip(days, hours);
    DictOfKeys(z, d);
    if d in days[..Min(|days|, |hours|)] {
      var i :| 0 <= i < Min(|days|, |hours|) && days[..Min(|days|, |hours|)][i] == d;
      assert z[i].0 == d;
    }
  }

  /** The hours map has at most `min(|days|, |hours|)` entries. */
  lemma PairHoursSize(days: seq<string>, hours: seq<string>)
    ensures |PairHours(days, hours)| <= Min(|days|, |hours|)
  {
    DictOfSize(Zip(days, hours));
  }

  /** A day label takes the hours at the position of its last occurrence. */
  lemma PairHoursLastWins(days: seq<string>, hours: seq<string>, i: nat)
    requires i < |days| && i < |hours|
    requires forall j | i < j < Min(|days|, |hours|) :: days[j] != days[i]
    ensures days[i] in PairHours(days, hours) && PairHours(days, hours)[days[i]] == hours[i]
  {
    var z := Zip(days, hours);
    assert z[i] == (days[i], hours[i]);
    forall j | i < j < |z|
      ensures z[j].0 != z[i].0
    {
      assert z[j] == (days[j], hours[j]);
    }
    DictOfLastWins(z, i);
  }

  /** Of two positions with the same day label, the later one's hours are kept. */
  lemma PairHoursDuplicateOverwrites(days: seq<string>, hours: seq<string>, i: nat, j: nat)
    requires i < j < |days| && j < |hours| && days[i] == days[j]
    requires forall k | j < k < Min(|days|, |hours|) :: days[k] != days[j]
    ensures days[i] in PairHours(days, hours) && PairHours(days, hours)[days[i]] == hours[j]
  {
    PairHoursLastWins(days, hours, j);
  }

  /** With distinct labels and one entry per label, every day keeps its own hours. */
  lemma PairHoursDistinct(days: seq<string>, hours: seq<string>)
    requires |days| == |hours|
    requires forall i, j | 0 <= i < j < |days| :: days[i] != days[j]
    ensures forall i | 0 <= i < |days| :: days[i] in PairHours(days, hours) && PairHours(days, hours)[days[i]] == hours[i]
  {
    forall i | 0 <= i < |days|
      ensures days[i] in PairHours(days, hours) && PairHours(days, hours)[days[i]] == hours[i]
    {
      PairHoursLastWins(days, hours, i);
    }
  }

  /** The hour texts begin with the entries of the first row. */
  lemma HourTextsStartWithFirstRow(rows: seq<seq<string>>)
    requires |rows| > 0
    ensures |HourTexts(rows)| >= |rows[0]|
    ensures HourTexts(rows)[..|rows[0]|] == StripAll(rows[0])
  {
    var ss := StripRows(rows);
    ConcatAppend([ss[0]], ss[1..]);
    assert [ss[0]] + ss[1..] == ss;
    assert [ss[0]][..0] == [];
  }

  /**
   * Pairing follows the entries, not the rows: when the first row holds two
   * entries, the second day label takes the first row's second entry.
   */
  lemma HoursFollowEntriesNotRows(days: seq<string>, rows: seq<seq<string>>)
    requires |days| >= 2 && |rows| > 0 && |rows[0]| >= 2
    requires forall j | 1 < j < |days| :: days[j] != days[1]
    ensures days[1] in PairHours(days, HourTexts(rows))
    ensures PairHours(days, HourTexts(rows))[days[1]] == Strip(rows[0][1])
  {
    var hours := HourTexts(rows);
    HourTextsStartWithFirstRow(rows);
    assert hours[1] == hours[..|rows[0]|][1] == Strip(rows[0][1]);
    PairHoursLastWins(days, hours, 1);
  }
}
