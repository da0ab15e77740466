/**
 * Where `AddData`'s merge puts the periods, for any strictly ascending rows
 * and strictly increasing periods: each period goes to the first row dated at
 * or after it, and that row ends up holding the bar of the last period dated
 * at or before it. The merge adds exactly the dates of the periods that are
 * later than every row, and the first period's date when every row is later;
 * merging the same periods a second time changes nothing.
 */
module StockDataLanding {
  import opened StockData
  import opened StockDataMerge

  /** The index of the first row dated at or after `date`, or `|rows|` when there is none. */
  function FirstNotBefore(rows: seq<Row>, date: int): (k: nat)
    ensures k <= |rows|
    ensures k < |rows| ==> rows[k].date >= date
    ensures forall j :: 0 <= j < k ==> rows[j].date < date
  {
    Advance(rows, 0, date)
  }

  /** The index of the last period dated at or before `date`, or -1 when there is none. */
  function LastUpTo(periods: seq<Period>, date: int): (m: int)
    ensures -1 <= m < |periods|
    ensures m >= 0 ==> periods[m].date <= date
    ensures forall j :: m < j < |periods| ==> periods[j].date > date
  {
    if periods == [] then -1
    else if periods[|periods| - 1].date <= date then |periods| - 1
    else LastUpTo(periods[..|periods| - 1], date)
  }

  /** The cursor is ready for a period dated `date`: -1 only when every row is later, and every row before it is earlier. */
  predicate CursorBefore(c: Cursor, date: int)
  {
    -1 <= c.i < |c.rows| &&
    (c.i == -1 ==> forall k :: 0 <= k < |c.rows| ==> c.rows[k].date > date) &&
    (forall k :: 0 <= k < c.i ==> c.rows[k].date < date)
  }

  /**
   * Period `n` has a first row dated at or after it, and that row holds the
   * bar of the last period dated at or before the row (period `n` or a later one).
   */
  predicate LandsNotBefore(out: seq<Row>, periods: seq<Period>, n: nat, ticker: string)
    requires n < |periods|
  {
    var r := FirstNotBefore(out, periods[n].date);
    r < |out| && ticker in out[r].data &&
    var m := LastUpTo(periods, out[r].date);
    n <= m && out[r].data[ticker] == BarOf(periods[m])
  }

  lemma FirstNotBeforeIs(rows: seq<Row>, date: int, k: nat)
    requires k <= |rows| && (k < |rows| ==> rows[k].date >= date)
    requires forall j :: 0 <= j < k ==> rows[j].date < date
    ensures FirstNotBefore(rows, date) == k
  {
  }

  /** Rows with the same dates, position by position, have the same first row at or after any date. */
  lemma FirstNotBeforeSame(a: seq<Row>, b: seq<Row>, date: int)
    requires |a| == |b| && forall k :: 0 <= k < |a| ==> a[k].date == b[k].date
    ensures FirstNotBefore(a, date) == FirstNotBefore(b, date)
  {
    FirstNotBeforeIs(b, date, FirstNotBefore(a, date));
  }

  lemma LastUpToIs(periods: seq<Period>, date: int, m: int)
    requires -1 <= m < |periods| && (m >= 0 ==> periods[m].date <= date)
    requires forall j :: m < j < |periods| ==> periods[j].date > date
    ensures LastUpTo(periods, date) == m
  {
  }

  /** Past a first period dated at or before `date`, the last period up to `date` moves down by one. */
  lemma LastUpToTail(periods: seq<Period>, date: int)
    requires periods != [] && periods[0].date <= date
    ensures LastUpTo(periods, date) == 1 + LastUpTo(periods[1..], date)
  {
    var m := LastUpTo(periods[1..], date);
    forall j | 1 + m < j < |periods|
      ensures periods[j].date > date
    {
      assert periods[j] == periods[1..][j - 1];
    }
    if m >= 0 {
      assert periods[1 + m] == periods[1..][m];
    }
    LastUpToIs(periods, date, 1 + m);
  }

  /** In strictly increasing periods, every period is later than `date` when the first one is. */
  lemma IncreasingAfter(periods: seq<Period>, date: int)
    requires StrictlyIncreasing(periods) && periods != [] && periods[0].date > date
    ensures forall n :: 0 <= n < |periods| ==> periods[n].date > date
  {
    forall n | 0 < n < |periods|
      ensures periods[n].date > date
    {
      assert periods[0].date < periods[n].date;
    }
  }

  /**
   * One turn from a ready cursor: the bar goes to a row dated at or after the
   * period, and every row before that row is earlier than the period.
   */
  lemma PlaceCursor(c: Cursor, p: Period, ticker: string)
    requires CursorBefore(c, p.date)
    ensures var c1 := Place(c, p, ticker);
      c1.rows[c1.i].date >= p.date && ticker in c1.rows[c1.i].data && c1.rows[c1.i].data[ticker] == BarOf(p) &&
      forall k :: 0 <= k < c1.i ==> c1.rows[k].date < p.date
  {
    var rows1 := if c.i == -1 then [EmptyRow(p.date)] + c.rows else c.rows;
    var i1 := if c.i == -1 then 0 else c.i;
    var j := Advance(rows1, i1, p.date);
    assert forall k :: 0 <= k < i1 ==> rows1[k].date < p.date;
  }

  /** The rest of the merge, from a cursor at or past 0, keeps the dates of the rows up to the cursor. */
  lemma PrefixDatesKept(c1: Cursor, rest: seq<Period>, ticker: string)
    requires 0 <= c1.i < |c1.rows|
    ensures var out := PlaceAll(c1, rest, ticker).rows;
      c1.i < |out| && forall k :: 0 <= k <= c1.i ==> out[k].date == c1.rows[k].date
  {
    PlaceAllExtends(c1, rest, ticker);
  }

  /** When the second period is dated no later than the first one's row, the first shares the second's landing. */
  lemma FirstLandsShared(out: seq<Row>, periods: seq<Period>, ticker: string, j: nat)
    requires StrictlyIncreasing(periods) && |periods| > 1
    requires j < |out| && FirstNotBefore(out, periods[0].date) == j && periods[1].date <= out[j].date
    requires LandsNotBefore(out, periods[1..], 0, ticker)
    ensures LandsNotBefore(out, periods, 0, ticker)
  {
    var rest := periods[1..];
    var d := out[j].date;
    assert rest[0] == periods[1];
    FirstNotBeforeIs(out, periods[1].date, j);
    LastUpToTail(periods, d);
    assert periods[1 + LastUpTo(rest, d)] == rest[LastUpTo(rest, d)];
  }

  /** When every later period is dated after the first one's row, that row keeps the first period's bar. */
  lemma FirstLandsAlone(c1: Cursor, periods: seq<Period>, ticker: string)
    requires StrictlyIncreasing(periods) && periods != [] && 0 <= c1.i < |c1.rows|
    requires ticker in c1.rows[c1.i].data && c1.rows[c1.i].data[ticker] == BarOf(periods[0])
    requires c1.rows[c1.i].date >= periods[0].date
    requires |periods| > 1 ==> periods[1].date > c1.rows[c1.i].date
    requires FirstNotBefore(PlaceAll(c1, periods[1..], ticker).rows, periods[0].date) == c1.i
    ensures LandsNotBefore(PlaceAll(c1, periods[1..], ticker).rows, periods, 0, ticker)
  {
    var rest := periods[1..];
    var d := c1.rows[c1.i].date;
    forall k | 0 < k < |periods|
      ensures periods[k].date > d
    {
      assert periods[1].date <= periods[k].date;
    }
    forall k | 0 <= k < |rest|
      ensures rest[k].date > d
    {
      assert rest[k] == periods[k + 1];
    }
    PlaceAllKeepsRow(c1, rest, ticker, c1.i);
    LastUpToIs(periods, d, 0);
  }

  /**
   * The first period lands in the first row at or after it, given the row
   * the first turn stored it in and the landing of the next period.
   */
  lemma FirstLandsNotBefore(c1: Cursor, out: seq<Row>, periods: seq<Period>, ticker: string)
    requires StrictlyIncreasing(periods) && periods != [] && 0 <= c1.i < |c1.rows|
    requires c1.rows[c1.i].date >= periods[0].date
    requires ticker in c1.rows[c1.i].data && c1.rows[c1.i].data[ticker] == BarOf(periods[0])
    requires forall k :: 0 <= k < c1.i ==> c1.rows[k].date < periods[0].date
    requires out == PlaceAll(c1, periods[1..], ticker).rows
    requires |periods| > 1 ==> LandsNotBefore(out, periods[1..], 0, ticker)
    ensures LandsNotBefore(out, periods, 0, ticker)
  {
    PrefixDatesKept(c1, periods[1..], ticker);
    FirstNotBeforeIs(out, periods[0].date, c1.i);
    if |periods| > 1 && periods[1].date <= out[c1.i].date {
      FirstLandsShared(out, periods, ticker, c1.i);
    } else {
      FirstLandsAlone(c1, periods, ticker);
    }
  }

  /** A later period's landing, stated for the rest of the periods, holds for all of them. */
  lemma LandsShift(out: seq<Row>, periods: seq<Period>, n: nat, ticker: string)
    requires StrictlyIncreasing(periods) && 1 <= n < |periods|
    requires LandsNotBefore(out, periods[1..], n - 1, ticker)
    ensures LandsNotBefore(out, periods, n, ticker)
  {
    var rest := periods[1..];
    assert periods[n] == rest[n - 1];
    var r := FirstNotBefore(out, periods[n].date);
    assert periods[0].date < periods[n].date <= out[r].date;
    LastUpToTail(periods, out[r].date);
    assert periods[1 + LastUpTo(rest, out[r].date)] == rest[LastUpTo(rest, out[r].date)];
  }

  /** The first turn of the merge from a ready cursor, as the rest of the merge sees it. */
  lemma PlaceReady(c: Cursor, periods: seq<Period>, ticker: string) returns (c1: Cursor)
    requires Ascending(c.rows) && StrictlyIncreasing(periods) && periods != [] && CursorBefore(c, periods[0].date)
    ensures Ascending(c1.rows) && 0 <= c1.i < |c1.rows| && StrictlyIncreasing(periods[1..])
    ensures PlaceAll(c, periods, ticker) == PlaceAll(c1, periods[1..], ticker)
    ensures |periods| > 1 ==> CursorBefore(c1, periods[1..][0].date)
    ensures c1.rows[c1.i].date >= periods[0].date
    ensures ticker in c1.rows[c1.i].data && c1.rows[c1.i].data[ticker] == BarOf(periods[0])
    ensures forall k :: 0 <= k < c1.i ==> c1.rows[k].date < periods[0].date
  {
    c1 := Place(c, periods[0], ticker);
    PlaceKeepsAscending(c, periods[0], ticker);
    PlaceCursor(c, periods[0], ticker);
    PlaceAllFirst(c, periods, ticker);
    if |periods| > 1 {
      assert periods[1..][0].date > periods[0].date;
    }
  }

  lemma {:induction false} PlaceAllNotBefore(c: Cursor, periods: seq<Period>, ticker: string)
    requires Ascending(c.rows) && StrictlyIncreasing(periods) && -1 <= c.i < |c.rows|
    requires periods != [] ==> CursorBefore(c, periods[0].date)
    ensures forall n :: 0 <= n < |periods| ==> LandsNotBefore(PlaceAll(c, periods, ticker).rows, periods, n, ticker)
    decreases |periods|
  {
    if periods == [] {
      return;
    }
    var c1 := PlaceReady(c, periods, ticker);
    var rest := periods[1..];
    PlaceAllNotBefore(c1, rest, ticker);
    var out := PlaceAll(c1, rest, ticker).rows;
    FirstLandsNotBefore(c1, out, periods, ticker);
    forall n | 1 <= n < |periods|
      ensures LandsNotBefore(out, periods, n, ticker)
    {
      LandsShift(out, periods, n, ticker);
    }
  }

  /**
   * `AddData` puts every period in the first row dated at or after it (a row
   * of its own date when one is made), and that row ends up holding the bar
   * of the last period dated at or before it.
   */
  lemma AddDataNotBefore(rows: seq<Row>, periods: seq<Period>, ticker: string)
    requires Ascending(rows) && StrictlyIncreasing(periods)
    ensures forall n :: 0 <= n < |periods| ==> LandsNotBefore(AddDataRows(rows, periods, ticker), periods, n, ticker)
  {
    if periods != [] {
      StartCursor(rows, periods[0].date);
      PlaceAllNotBefore(Cursor(rows, LastAtOrBefore(rows, periods[0].date)), periods, ticker);
    }
  }

  /** The dates the periods carry. */
  function PeriodDates(periods: seq<Period>): set<int>
  {
    set p | p in periods :: p.date
  }

  /** Every row is dated before `date`. */
  predicate AllBefore(rows: seq<Row>, date: int)
  {
    forall d :: d in Dates(rows) ==> d < date
  }

  /** Every row is dated after `date`. */
  predicate AllAfter(rows: seq<Row>, date: int)
  {
    forall d :: d in Dates(rows) ==> d > date
  }

  /**
   * The dates a merge adds: the first period's when `front` (every row is
   * later, so a row goes in front), and each period's that is later than
   * every row (a row is appended).
   */
  function NewDates(rows: seq<Row>, periods: seq<Period>, front: bool): set<int>
  {
    (if front && periods != [] then {periods[0].date} else {}) +
    set d | d in PeriodDates(periods) && AllBefore(rows, d)
  }

  /** One turn adds the period's date exactly when it puts a row in front or runs off the end. */
  lemma PlaceDatesExact(c: Cursor, p: Period, ticker: string)
    requires CursorBefore(c, p.date)
    ensures Dates(Place(c, p, ticker).rows) == Dates(c.rows) + (if c.i == -1 || AllBefore(c.rows, p.date) then {p.date} else {})
  {
    var rows1 := if c.i == -1 then [EmptyRow(p.date)] + c.rows else c.rows;
    var i1 := if c.i == -1 then 0 else c.i;
    var j := Advance(rows1, i1, p.date);
    var rows2 := if j == |rows1| then rows1 + [EmptyRow(p.date)] else rows1;
    assert Dates([EmptyRow(p.date)]) == {p.date};
    SameDates(rows2, Place(c, p, ticker).rows);
    if c.i == -1 {
      assert rows1[0].date == p.date;
      DatesConcat([EmptyRow(p.date)], c.rows);
    } else if AllBefore(c.rows, p.date) {
      AdvancePastAll(c.rows, c.i, p.date);
      DatesConcat(c.rows, [EmptyRow(p.date)]);
    } else {
      AdvanceStops(c, p.date);
    }
  }

  /** From a ready cursor, the cursor stops inside the rows when some row is not before `date`. */
  lemma AdvanceStops(c: Cursor, date: int)
    requires CursorBefore(c, date) && c.i >= 0 && !AllBefore(c.rows, date)
    ensures Advance(c.rows, c.i, date) < |c.rows|
  {
    var x :| x in Dates(c.rows) && x >= date;
    var row :| row in c.rows && row.date == x;
    var r :| 0 <= r < |c.rows| && c.rows[r] == row;
    assert Advance(c.rows, c.i, date) <= r;
  }

  lemma PeriodDatesFirst(periods: seq<Period>)
    requires StrictlyIncreasing(periods) && periods != []
    ensures PeriodDates(periods) == {periods[0].date} + PeriodDates(periods[1..])
    ensures forall d :: d in PeriodDates(periods[1..]) ==> d > periods[0].date
  {
    var rest := periods[1..];
    forall d | d in PeriodDates(periods)
      ensures d == periods[0].date || d in PeriodDates(rest)
    {
      var q :| q in periods && q.date == d;
      var i :| 0 <= i < |periods| && periods[i] == q;
      if i > 0 {
        assert rest[i - 1] == q;
      }
    }
    forall d | d in PeriodDates(rest)
      ensures d in PeriodDates(periods) && d > periods[0].date
    {
      var q :| q in rest && q.date == d;
      var i :| 0 <= i < |rest| && rest[i] == q;
      assert periods[i + 1] == q;
    }
    assert periods[0] in periods;
  }

  /** The dates still to be added after the first turn, together with the rows it left, are those the whole merge adds. */
  lemma NewDatesStep(rows: seq<Row>, rows1: seq<Row>, periods: seq<Period>, front: bool)
    requires StrictlyIncreasing(periods) && periods != []
    requires Dates(rows1) == Dates(rows) + (if front || AllBefore(rows, periods[0].date) then {periods[0].date} else {})
    ensures Dates(rows) + NewDates(rows, periods, front) == Dates(rows1) + NewDates(rows1, periods[1..], false)
  {
    PeriodDatesFirst(periods);
    forall d | d > periods[0].date
      ensures AllBefore(rows1, d) <==> AllBefore(rows, d)
    {
    }
  }

  lemma {:induction false} PlaceAllDates(c: Cursor, periods: seq<Period>, ticker: string)
    requires Ascending(c.rows) && StrictlyIncreasing(periods) && -1 <= c.i < |c.rows|
    requires periods != [] ==> CursorBefore(c, periods[0].date)
    ensures Dates(PlaceAll(c, periods, ticker).rows) == Dates(c.rows) + NewDates(c.rows, periods, c.i == -1)
    decreases |periods|
  {
    if periods == [] {
      assert PeriodDates(periods) == {};
      return;
    }
    var p, rest := periods[0], periods[1..];
    var c1 := Place(c, p, ticker);
    PlaceKeepsAscending(c, p, ticker);
    PlaceCursor(c, p, ticker);
    PlaceDatesExact(c, p, ticker);
    assert StrictlyIncreasing(rest);
    if rest != [] {
      assert rest[0].date > p.date;
    }
    PlaceAllDates(c1, rest, ticker);
    assert PlaceAll(c, periods, ticker).rows == PlaceAll(c1, rest, ticker).rows;
    NewDatesStep(c.rows, c1.rows, periods, c.i == -1);
  }

  /** `AddData`'s cursor starts ready for the first period, at -1 exactly when every row is later. */
  lemma StartCursor(rows: seq<Row>, date: int)
    requires Ascending(rows)
    ensures CursorBefore(Cursor(rows, LastAtOrBefore(rows, date)), date)
    ensures LastAtOrBefore(rows, date) == -1 <==> AllAfter(rows, date)
  {
    var i := LastAtOrBefore(rows, date);
    assert forall k :: 0 <= k < i ==> rows[k].date < rows[i].date;
    if i == -1 {
      forall d | d in Dates(rows)
        ensures d > date
      {
        var x :| x in rows && x.date == d;
        var k :| 0 <= k < |rows| && rows[k] == x;
      }
    } else {
      assert rows[i] in rows && rows[i].date in Dates(rows);
    }
  }

  /**
   * The dates after `AddData` are the old ones plus exactly: the first
   * period's when every row is later than it, and each period's that is
   * later than every row. A period dated between two rows adds no row.
   */
  lemma AddDataDates(rows: seq<Row>, periods: seq<Period>, ticker: string)
    requires Ascending(rows) && StrictlyIncreasing(periods)
    ensures Dates(AddDataRows(rows, periods, ticker)) ==
      Dates(rows) + NewDates(rows, periods, periods != [] && AllAfter(rows, periods[0].date))
  {
    if periods == [] {
      assert PeriodDates(periods) == {};
      return;
    }
    var c := Cursor(rows, LastAtOrBefore(rows, periods[0].date));
    StartCursor(rows, periods[0].date);
    PlaceAllDates(c, periods, ticker);
  }

  /**
   * A period with a later row, and (for the first period) an earlier or
   * equal one too, adds no row: its date is there afterwards only if it was
   * there before.
   */
  lemma AddDataNoRowBetween(rows: seq<Row>, periods: seq<Period>, ticker: string, n: nat)
    requires Ascending(rows) && StrictlyIncreasing(periods) && n < |periods|
    requires !AllBefore(rows, periods[n].date)
    requires n > 0 || !AllAfter(rows, periods[0].date)
    ensures periods[n].date in Dates(AddDataRows(rows, periods, ticker)) <==> periods[n].date in Dates(rows)
  {
    AddDataDates(rows, periods, ticker);
    if n > 0 {
      assert periods[0].date < periods[n].date;
    }
  }

  /**
   * What a merge that makes no row does to row `k`: when the last period
   * dated at or before the row has it as its first row at or after, the row
   * holds that period's bar; otherwise the row is as it was.
   */
  function Placed(rows: seq<Row>, periods: seq<Period>, ticker: string, k: nat): Row
    requires k < |rows|
  {
    var m := LastUpTo(periods, rows[k].date);
    if m >= 0 && FirstNotBefore(rows, periods[m].date) == k then Store(rows[k], ticker, BarOf(periods[m])) else rows[k]
  }

  /** Every period has a row dated at or after it. */
  predicate Covered(rows: seq<Row>, periods: seq<Period>)
  {
    forall n :: 0 <= n < |periods| ==> FirstNotBefore(rows, periods[n].date) < |rows|
  }

  /** A turn from a ready cursor with a row at or after the period makes no row and stores into that row. */
  lemma PlaceInPlace(c: Cursor, p: Period, ticker: string)
    requires CursorBefore(c, p.date) && c.i >= 0 && FirstNotBefore(c.rows, p.date) < |c.rows|
    ensures var j := FirstNotBefore(c.rows, p.date);
      Place(c, p, ticker) == Cursor(c.rows[j := Store(c.rows[j], ticker, BarOf(p))], j)
  {
    FirstNotBeforeIs(c.rows, p.date, Advance(c.rows, c.i, p.date));
  }

  lemma StoreTwice(row: Row, ticker: string, b1: Bar, b2: Bar)
    ensures Store(Store(row, ticker, b1), ticker, b2) == Store(row, ticker, b2)
  {
    assert row.data[ticker := b1][ticker := b2] == row.data[ticker := b2];
  }

  /** At the row the first period goes to, the rest of the merge agrees with the whole. */
  lemma PlacedAtCursor(rows: seq<Row>, periods: seq<Period>, ticker: string)
    requires Ascending(rows) && StrictlyIncreasing(periods) && periods != []
    requires FirstNotBefore(rows, periods[0].date) < |rows|
    ensures var j := FirstNotBefore(rows, periods[0].date);
      Placed(rows[j := Store(rows[j], ticker, BarOf(periods[0]))], periods[1..], ticker, j) == Placed(rows, periods, ticker, j)
  {
    var p, rest := periods[0], periods[1..];
    var j := FirstNotBefore(rows, p.date);
    var rows1 := rows[j := Store(rows[j], ticker, BarOf(p))];
    var d := rows[j].date;
    LastUpToTail(periods, d);
    var m1 := LastUpTo(rest, d);
    if m1 >= 0 {
      assert periods[1 + m1] == rest[m1];
      assert rest[m1].date > p.date;
      FirstNotBeforeIs(rows, rest[m1].date, j);
      FirstNotBeforeSame(rows1, rows, rest[m1].date);
      StoreTwice(rows[j], ticker, BarOf(p), BarOf(rest[m1]));
    }
  }

  /** Away from the row the first period goes to, the rest of the merge agrees with the whole. */
  lemma PlacedElsewhere(rows: seq<Row>, periods: seq<Period>, ticker: string, k: nat)
    requires Ascending(rows) && StrictlyIncreasing(periods) && periods != []
    requires FirstNotBefore(rows, periods[0].date) < |rows| && k < |rows| && k != FirstNotBefore(rows, periods[0].date)
    ensures var j := FirstNotBefore(rows, periods[0].date);
      Placed(rows[j := Store(rows[j], ticker, BarOf(periods[0]))], periods[1..], ticker, k) == Placed(rows, periods, ticker, k)
  {
    var p, rest := periods[0], periods[1..];
    var j := FirstNotBefore(rows, p.date);
    var rows1 := rows[j := Store(rows[j], ticker, BarOf(p))];
    var d := rows[k].date;
    if k < j {
      IncreasingAfter(periods, d);
      LastUpToIs(periods, d, -1);
      forall n | 0 <= n < |rest|
        ensures rest[n].date > d
      {
        assert rest[n] == periods[n + 1];
      }
      LastUpToIs(rest, d, -1);
    } else {
      assert rows[j].date < d;
      LastUpToTail(periods, d);
      var m1 := LastUpTo(rest, d);
      if m1 >= 0 {
        assert periods[1 + m1] == rest[m1];
        FirstNotBeforeSame(rows1, rows, rest[m1].date);
      }
    }
  }

  /** The rows after storing the first period's bar in its row are ready for the rest of the periods. */
  lemma StoredReady(rows: seq<Row>, periods: seq<Period>, ticker: string)
    requires Ascending(rows) && StrictlyIncreasing(periods) && periods != [] && Covered(rows, periods)
    ensures var j := FirstNotBefore(rows, periods[0].date);
      var rows1 := rows[j := Store(rows[j], ticker, BarOf(periods[0]))];
      Ascending(rows1) && StrictlyIncreasing(periods[1..]) && Covered(rows1, periods[1..]) &&
      (|periods| > 1 ==> CursorBefore(Cursor(rows1, j), periods[1..][0].date))
  {
    var p, rest := periods[0], periods[1..];
    var j := FirstNotBefore(rows, p.date);
    var rows1 := rows[j := Store(rows[j], ticker, BarOf(p))];
    assert forall k :: 0 <= k < |rows| ==> rows1[k].date == rows[k].date;
    if rest != [] {
      assert rest[0].date > p.date;
    }
    forall n | 0 <= n < |rest|
      ensures FirstNotBefore(rows1, rest[n].date) < |rows1|
    {
      assert rest[n] == periods[n + 1];
      FirstNotBeforeSame(rows1, rows, rest[n].date);
    }
  }

  /** The first turn of a merge that makes no row, as the rest of the merge sees it. */
  lemma PlaceReadyInPlace(c: Cursor, periods: seq<Period>, ticker: string) returns (c1: Cursor)
    requires Ascending(c.rows) && StrictlyIncreasing(periods) && periods != []
    requires c.i >= 0 && CursorBefore(c, periods[0].date) && Covered(c.rows, periods)
    ensures var j := FirstNotBefore(c.rows, periods[0].date);
      j < |c.rows| && c1 == Cursor(c.rows[j := Store(c.rows[j], ticker, BarOf(periods[0]))], j)
    ensures PlaceAll(c, periods, ticker) == PlaceAll(c1, periods[1..], ticker)
    ensures Ascending(c1.rows) && StrictlyIncreasing(periods[1..]) && Covered(c1.rows, periods[1..])
    ensures |periods| > 1 ==> CursorBefore(c1, periods[1..][0].date)
  {
    c1 := Place(c, periods[0], ticker);
    PlaceInPlace(c, periods[0], ticker);
    PlaceAllFirst(c, periods, ticker);
    StoredReady(c.rows, periods, ticker);
  }

  /** A merge from a ready cursor, where every period has a row at or after it, makes no row and sets each row to `Placed`. */
  lemma {:induction false} PlaceAllInPlace(c: Cursor, periods: seq<Period>, ticker: string)
    requires Ascending(c.rows) && StrictlyIncreasing(periods) && 0 <= c.i < |c.rows|
    requires periods != [] ==> CursorBefore(c, periods[0].date)
    requires Covered(c.rows, periods)
    ensures var out := PlaceAll(c, periods, ticker).rows;
      |out| == |c.rows| && forall k :: 0 <= k < |out| ==> out[k] == Placed(c.rows, periods, ticker, k)
    decreases |periods|
  {
    if periods == [] {
      return;
    }
    var c1 := PlaceReadyInPlace(c, periods, ticker);
    PlaceAllInPlace(c1, periods[1..], ticker);
    PlacedAfterFirst(c.rows, periods, ticker);
    var out := PlaceAll(c1, periods[1..], ticker).rows;
    forall k | 0 <= k < |out|
      ensures out[k] == Placed(c.rows, periods, ticker, k)
    {
      assert out[k] == Placed(c1.rows, periods[1..], ticker, k);
    }
  }

  /** Row by row, the rest of a merge that makes no row, after the first turn, agrees with the whole. */
  lemma PlacedAfterFirst(rows: seq<Row>, periods: seq<Period>, ticker: string)
    requires Ascending(rows) && StrictlyIncreasing(periods) && periods != []
    requires FirstNotBefore(rows, periods[0].date) < |rows|
    ensures var j := FirstNotBefore(rows, periods[0].date);
      var rows1 := rows[j := Store(rows[j], ticker, BarOf(periods[0]))];
      forall k :: 0 <= k < |rows| ==> Placed(rows1, periods[1..], ticker, k) == Placed(rows, periods, ticker, k)
  {
    var j := FirstNotBefore(rows, periods[0].date);
    var rows1 := rows[j := Store(rows[j], ticker, BarOf(periods[0]))];
    forall k | 0 <= k < |rows|
      ensures Placed(rows1, periods[1..], ticker, k) == Placed(rows, periods, ticker, k)
    {
      if k == j {
        PlacedAtCursor(rows, periods, ticker);
      } else {
        PlacedElsewhere(rows, periods, ticker, k);
      }
    }
  }

  /** After `AddData`, some row is dated at or before the first period. */
  lemma AddDataStartsBefore(rows: seq<Row>, periods: seq<Period>, ticker: string)
    requires periods != []
    ensures LastAtOrBefore(AddDataRows(rows, periods, ticker), periods[0].date) >= 0
  {
    var c := Cursor(rows, LastAtOrBefore(rows, periods[0].date));
    var out := AddDataRows(rows, periods, ticker);
    if c.i == -1 {
      var c1 := Place(c, periods[0], ticker);
      assert c1.rows[0].date == periods[0].date;
      PlaceAllExtends(c1, periods[1..], ticker);
      assert out == PlaceAll(c1, periods[1..], ticker).rows;
      assert out[0].date == periods[0].date;
    } else {
      PlaceAllExtends(c, periods, ticker);
      assert out[c.i].date == rows[c.i].date;
    }
  }

  /** A row every landing leaves as it is: it already holds the bar the merge would store. */
  lemma PlacedLanded(out: seq<Row>, periods: seq<Period>, ticker: string, k: nat)
    requires k < |out| && forall n :: 0 <= n < |periods| ==> LandsNotBefore(out, periods, n, ticker)
    ensures Placed(out, periods, ticker, k) == out[k]
  {
    var m := LastUpTo(periods, out[k].date);
    if m >= 0 && FirstNotBefore(out, periods[m].date) == k {
      assert LandsNotBefore(out, periods, m, ticker);
      assert out[k].data[ticker := BarOf(periods[m])] == out[k].data;
    }
  }

  lemma LandsCovered(rows: seq<Row>, periods: seq<Period>, ticker: string)
    requires forall n :: 0 <= n < |periods| ==> LandsNotBefore(rows, periods, n, ticker)
    ensures Covered(rows, periods)
  {
    forall n | 0 <= n < |periods|
      ensures FirstNotBefore(rows, periods[n].date) < |rows|
    {
      assert LandsNotBefore(rows, periods, n, ticker);
    }
  }

  lemma AllPlacedLanded(rows: seq<Row>, periods: seq<Period>, ticker: string)
    requires forall n :: 0 <= n < |periods| ==> LandsNotBefore(rows, periods, n, ticker)
    ensures forall k :: 0 <= k < |rows| ==> Placed(rows, periods, ticker, k) == rows[k]
  {
    forall k | 0 <= k < |rows|
      ensures Placed(rows, periods, ticker, k) == rows[k]
    {
      PlacedLanded(rows, periods, ticker, k);
    }
  }

  /** From a ready cursor, merging periods that already hold their landings changes no row. */
  lemma PlaceAllSettled(c: Cursor, periods: seq<Period>, ticker: string)
    requires Ascending(c.rows) && StrictlyIncreasing(periods) && periods != []
    requires 0 <= c.i < |c.rows| && CursorBefore(c, periods[0].date)
    requires forall n :: 0 <= n < |periods| ==> LandsNotBefore(c.rows, periods, n, ticker)
    ensures PlaceAll(c, periods, ticker).rows == c.rows
  {
    LandsCovered(c.rows, periods, ticker);
    AllPlacedLanded(c.rows, periods, ticker);
    PlaceAllInPlace(c, periods, ticker);
  }

  /**
   * Rows where every period already holds its landing, with a row at or
   * before the first period, are left unchanged by merging the periods.
   */
  lemma AddDataFixed(out: seq<Row>, periods: seq<Period>, ticker: string)
    requires Ascending(out) && StrictlyIncreasing(periods) && periods != []
    requires forall n :: 0 <= n < |periods| ==> LandsNotBefore(out, periods, n, ticker)
    requires LastAtOrBefore(out, periods[0].date) >= 0
    ensures AddDataRows(out, periods, ticker) == out
  {
    StartCursor(out, periods[0].date);
    PlaceAllSettled(Cursor(out, LastAtOrBefore(out, periods[0].date)), periods, ticker);
  }

  /** What `AddData` leaves: ascending rows where every period holds its landing, with a row at or before the first period. */
  lemma AddDataSettles(rows: seq<Row>, periods: seq<Period>, ticker: string)
    requires Ascending(rows) && StrictlyIncreasing(periods) && periods != []
    ensures var out := AddDataRows(rows, periods, ticker);
      Ascending(out) && LastAtOrBefore(out, periods[0].date) >= 0 &&
      forall n :: 0 <= n < |periods| ==> LandsNotBefore(out, periods, n, ticker)
  {
    AddDataKeepsAscending(rows, periods, ticker);
    AddDataNotBefore(rows, periods, ticker);
    AddDataStartsBefore(rows, periods, ticker);
  }

  lemma TickersIdempotent(tickers: map<string, TickerMeta>, periods: seq<Period>, ticker: string)
    ensures AddDataTickers(AddDataTickers(tickers, periods, ticker), periods, ticker) == AddDataTickers(tickers, periods, ticker)
  {
    if periods != [] {
      var meta := TickerMeta(periods[0].date, periods[|periods| - 1].date);
      assert tickers[ticker := meta][ticker := meta] == tickers[ticker := meta];
    }
  }

  /** Merging the same periods again changes neither the rows nor the metadata. */
  lemma AddDataIdempotent(rows: seq<Row>, tickers: map<string, TickerMeta>, periods: seq<Period>, ticker: string)
    requires Ascending(rows) && StrictlyIncreasing(periods)
    ensures AddDataRows(AddDataRows(rows, periods, ticker), periods, ticker) == AddDataRows(rows, periods, ticker)
    ensures AddDataTickers(AddDataTickers(tickers, periods, ticker), periods, ticker) == AddDataTickers(tickers, periods, ticker)
  {
    if periods != [] {
      var out := AddDataRows(rows, periods, ticker);
      AddDataSettles(rows, periods, ticker);
      AddDataFixed(out, periods, ticker);
    }
    TickersIdempotent(tickers, periods, ticker);
  }
}
