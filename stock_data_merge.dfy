/**
 * What `AddData`'s one-pass merge does to the rows: it keeps them strictly
 * ascending, adds rows only in front (once, before every existing row) or at
 * the end, touches no other ticker's bar, and puts each period's bar in the
 * row of its own date whenever such a row exists or can be appended. A bar
 * whose date falls strictly between two existing rows goes into the later row.
 */
module StockDataMerge {
  import opened Wrappers
  import opened StockData

  /** The dates the rows carry. */
  function Dates(rows: seq<Row>): set<int>
  {
    set r | r in rows :: r.date
  }

  /** `a` and `b` hold the same bars for every ticker other than `ticker`. */
  ghost predicate SameExcept(a: map<string, Bar>, b: map<string, Bar>, ticker: string)
  {
    forall t :: t != ticker ==> (t in a <==> t in b) && (t in a ==> a[t] == b[t])
  }

  /**
   * `after` is `before` with `front` (0 or 1) new rows in front and maybe
   * some at the end; the rows of `before` keep their order, their dates and
   * every other ticker's bar, and the new rows hold no other ticker.
   */
  ghost predicate Extends(before: seq<Row>, after: seq<Row>, ticker: string, front: nat)
  {
    front <= 1 && front + |before| <= |after| &&
    (forall k :: 0 <= k < |before| ==>
      after[front + k].date == before[k].date && SameExcept(after[front + k].data, before[k].data, ticker)) &&
    (forall k :: 0 <= k < |after| && !(front <= k < front + |before|) ==>
      forall t :: t in after[k].data ==> t == ticker)
  }

  /** The cursor fits a period dated `date`: -1 only when every row is later, otherwise not past `date`. */
  predicate CursorFits(c: Cursor, date: int)
  {
    -1 <= c.i < |c.rows| &&
    (c.i == -1 ==> forall k :: 0 <= k < |c.rows| ==> c.rows[k].date > date) &&
    (c.i >= 0 ==> c.rows[c.i].date <= date)
  }

  predicate StrictlyIncreasing(periods: seq<Period>)
  {
    forall i, j :: 0 <= i < j < |periods| ==> periods[i].date < periods[j].date
  }

  /** Some row dated `date` holds `bar` for `ticker`. */
  ghost predicate HasBar(rows: seq<Row>, date: int, ticker: string, bar: Bar)
  {
    exists r :: 0 <= r < |rows| && rows[r].date == date && ticker in rows[r].data && rows[r].data[ticker] == bar
  }

  /** The bar of `ticker` in the row dated `date`, found the way `GetClosestRowBefore` finds rows. */
  function BarAtDate(rows: seq<Row>, date: int, ticker: string): Option<Bar>
  {
    var k := LastAtOrBefore(rows, date);
    if k >= 0 && rows[k].date == date && ticker in rows[k].data then Some(rows[k].data[ticker]) else None
  }

  /**
   * Every period has a row of its own date to go to: one exists already, or
   * the period is later than every row (it is appended), or it is the first
   * period and the cursor starts in front of every row (it is put in front).
   */
  predicate Lands(c: Cursor, periods: seq<Period>)
  {
    forall n :: 0 <= n < |periods| ==>
      periods[n].date in Dates(c.rows) ||
      (forall d :: d in Dates(c.rows) ==> d < periods[n].date) ||
      (n == 0 && c.i == -1)
  }

  /** In ascending rows, the last row at or before a row's own date is that row. */
  lemma LastAtOrBeforeFinds(rows: seq<Row>, r: int)
    requires Ascending(rows) && 0 <= r < |rows|
    ensures LastAtOrBefore(rows, rows[r].date) == r
  {
  }

  lemma ExtendsCompose(a: seq<Row>, b: seq<Row>, c: seq<Row>, ticker: string, front: nat)
    requires Extends(a, b, ticker, front) && Extends(b, c, ticker, 0)
    ensures Extends(a, c, ticker, front)
  {
    forall k | 0 <= k < |c| && !(front <= k < front + |a|)
      ensures forall t :: t in c[k].data ==> t == ticker
    {
      if k < |b| {
        assert SameExcept(c[k].data, b[k].data, ticker);
      }
    }
  }

  lemma ExtendsSelf(rows: seq<Row>, ticker: string)
    ensures Extends(rows, rows, ticker, 0)
  {
  }

  /** One turn of the loop adds rows only in front (when the cursor is -1) or at the end. */
  lemma PlaceExtends(c: Cursor, p: Period, ticker: string)
    requires -1 <= c.i < |c.rows|
    ensures Extends(c.rows, Place(c, p, ticker).rows, ticker, if c.i == -1 then 1 else 0)
  {
    var front := if c.i == -1 then 1 else 0;
    var rows1 := if c.i == -1 then [EmptyRow(p.date)] + c.rows else c.rows;
    var j := Advance(rows1, if c.i == -1 then 0 else c.i, p.date);
    var rows2 := if j == |rows1| then rows1 + [EmptyRow(p.date)] else rows1;
    if c.i == -1 {
      PrependExtends(c.rows, p.date, ticker);
    } else {
      ExtendsSelf(c.rows, ticker);
    }
    if j == |rows1| {
      AppendExtends(rows1, p.date, ticker);
    } else {
      ExtendsSelf(rows1, ticker);
    }
    ExtendsCompose(c.rows, rows1, rows2, ticker, front);
    StoreExtends(rows2, j, ticker, BarOf(p));
    ExtendsCompose(c.rows, rows2, Place(c, p, ticker).rows, ticker, front);
  }

  /** An empty row in front of the rows. */
  lemma PrependExtends(rows: seq<Row>, date: int, ticker: string)
    ensures Extends(rows, [EmptyRow(date)] + rows, ticker, 1)
  {
  }

  /** An empty row after the rows. */
  lemma AppendExtends(rows: seq<Row>, date: int, ticker: string)
    ensures Extends(rows, rows + [EmptyRow(date)], ticker, 0)
  {
  }

  /** Storing `ticker`'s bar in one row changes no date and no other ticker's bar. */
  lemma StoreExtends(rows: seq<Row>, j: nat, ticker: string, bar: Bar)
    requires j < |rows|
    ensures Extends(rows, rows[j := Store(rows[j], ticker, bar)], ticker, 0)
  {
  }

  lemma {:induction false} PlaceAllExtends(c: Cursor, periods: seq<Period>, ticker: string)
    requires -1 <= c.i < |c.rows|
    ensures Extends(c.rows, PlaceAll(c, periods, ticker).rows, ticker, if c.i == -1 && periods != [] then 1 else 0)
    decreases |periods|
  {
    if periods == [] {
      ExtendsSelf(c.rows, ticker);
    } else {
      var c1 := Place(c, periods[0], ticker);
      PlaceExtends(c, periods[0], ticker);
      PlaceAllExtends(c1, periods[1..], ticker);
      ExtendsCompose(c.rows, c1.rows, PlaceAll(c1, periods[1..], ticker).rows, ticker, if c.i == -1 then 1 else 0);
    }
  }

  /**
   * `AddData` keeps every row, in order, with its date and every other
   * ticker's bar; it creates at most one row in front, only when every row
   * is later than the first period, and otherwise only rows at the end,
   * which hold nothing but `ticker`.
   */
  lemma AddDataShape(rows: seq<Row>, periods: seq<Period>, ticker: string) returns (front: nat)
    ensures Extends(rows, AddDataRows(rows, periods, ticker), ticker, front)
    ensures front == 1 ==> periods != [] && forall k :: 0 <= k < |rows| ==> rows[k].date > periods[0].date
  {
    if periods == [] {
      ExtendsSelf(rows, ticker);
      return 0;
    }
    var c := Cursor(rows, LastAtOrBefore(rows, periods[0].date));
    PlaceAllExtends(c, periods, ticker);
    front := if c.i == -1 then 1 else 0;
  }

  /** Rows with the same dates, position by position, carry the same set of dates. */
  lemma SameDates(a: seq<Row>, b: seq<Row>)
    requires |a| == |b| && forall k :: 0 <= k < |a| ==> a[k].date == b[k].date
    ensures Dates(a) == Dates(b)
  {
    forall d | d in Dates(a) ensures d in Dates(b) {
      var x :| x in a && x.date == d;
      var m :| 0 <= m < |a| && a[m] == x;
      assert b[m] in b;
    }
    forall d | d in Dates(b) ensures d in Dates(a) {
      var x :| x in b && x.date == d;
      var m :| 0 <= m < |b| && b[m] == x;
      assert a[m] in a;
    }
  }

  lemma DatesConcat(a: seq<Row>, b: seq<Row>)
    ensures Dates(a + b) == Dates(a) + Dates(b)
  {
    assert forall x :: x in a + b <==> x in a || x in b;
  }

  /** One turn of the loop adds at most the period's own date. */
  lemma PlaceDates(c: Cursor, p: Period, ticker: string)
    requires -1 <= c.i < |c.rows|
    ensures Dates(c.rows) <= Dates(Place(c, p, ticker).rows) <= Dates(c.rows) + {p.date}
  {
    var rows1 := if c.i == -1 then [EmptyRow(p.date)] + c.rows else c.rows;
    var i1 := if c.i == -1 then 0 else c.i;
    var j := Advance(rows1, i1, p.date);
    var rows2 := if j == |rows1| then rows1 + [EmptyRow(p.date)] else rows1;
    DatesConcat([EmptyRow(p.date)], c.rows);
    DatesConcat(rows1, [EmptyRow(p.date)]);
    assert Dates([EmptyRow(p.date)]) == {p.date};
    SameDates(rows2, Place(c, p, ticker).rows);
  }

  /** A period with a row of its own date to go to lands in that row. */
  lemma PlaceLands(c: Cursor, p: Period, ticker: string)
    requires Ascending(c.rows) && CursorFits(c, p.date)
    requires p.date in Dates(c.rows) || (forall d :: d in Dates(c.rows) ==> d < p.date) || c.i == -1
    ensures Place(c, p, ticker).rows[Place(c, p, ticker).i].date == p.date
  {
    var rows1 := if c.i == -1 then [EmptyRow(p.date)] + c.rows else c.rows;
    var i1 := if c.i == -1 then 0 else c.i;
    var j := Advance(rows1, i1, p.date);
    if c.i == -1 {
      assert rows1[0].date == p.date && j == 0;
    } else if p.date in Dates(c.rows) {
      AdvanceFindsDate(c.rows, c.i, p.date);
    } else {
      AdvancePastAll(c.rows, c.i, p.date);
    }
  }

  /** In ascending rows, the cursor stops at the row of `date` when there is one. */
  lemma AdvanceFindsDate(rows: seq<Row>, i: nat, date: int)
    requires Ascending(rows) && i < |rows| && rows[i].date <= date && date in Dates(rows)
    ensures Advance(rows, i, date) < |rows| && rows[Advance(rows, i, date)].date == date
  {
    var x :| x in rows && x.date == date;
    var k :| 0 <= k < |rows| && rows[k] == x;
    assert i <= k;
  }

  /** The cursor runs off the end when every row is dated before `date`. */
  lemma AdvancePastAll(rows: seq<Row>, i: nat, date: int)
    requires i <= |rows| && forall d :: d in Dates(rows) ==> d < date
    ensures Advance(rows, i, date) == |rows|
  {
    assert forall k :: 0 <= k < |rows| ==> rows[k] in rows && rows[k].date in Dates(rows);
  }

  /** A row before the cursor, dated before every period still to come, is never touched again. */
  lemma {:induction false} PlaceAllKeepsRow(c: Cursor, periods: seq<Period>, ticker: string, r: int)
    requires 0 <= r <= c.i < |c.rows|
    requires forall n :: 0 <= n < |periods| ==> periods[n].date > c.rows[r].date
    ensures r < |PlaceAll(c, periods, ticker).rows| && PlaceAll(c, periods, ticker).rows[r] == c.rows[r]
    decreases |periods|
  {
    if periods != [] {
      var c1 := Place(c, periods[0], ticker);
      assert c1.i != r || c1.i > c.i;
      assert c1.rows[r] == c.rows[r];
      PlaceAllKeepsRow(c1, periods[1..], ticker, r);
    }
  }

  /** After the first period is placed, the rest still land, and the cursor fits the next one. */
  lemma LandsAfterFirst(c: Cursor, periods: seq<Period>, ticker: string)
    requires Ascending(c.rows) && StrictlyIncreasing(periods) && Lands(c, periods)
    requires periods != [] && CursorFits(c, periods[0].date)
    ensures Lands(Place(c, periods[0], ticker), periods[1..])
    ensures periods[1..] != [] ==> CursorFits(Place(c, periods[0], ticker), periods[1].date)
    ensures forall n :: 1 <= n < |periods| ==>
      periods[n].date > Place(c, periods[0], ticker).rows[Place(c, periods[0], ticker).i].date
  {
    var p := periods[0];
    var c1 := Place(c, p, ticker);
    PlaceLands(c, p, ticker);
    PlaceDates(c, p, ticker);
    var rest := periods[1..];
    forall n | 0 <= n < |rest|
      ensures rest[n].date in Dates(c1.rows) || (forall d :: d in Dates(c1.rows) ==> d < rest[n].date)
    {
      assert rest[n] == periods[n + 1];
      assert p.date < rest[n].date;
    }
  }

  lemma {:induction false} PlaceAllLands(c: Cursor, periods: seq<Period>, ticker: string)
    requires Ascending(c.rows) && StrictlyIncreasing(periods) && Lands(c, periods)
    requires -1 <= c.i < |c.rows| && (periods != [] ==> CursorFits(c, periods[0].date))
    ensures forall n :: 0 <= n < |periods| ==> HasBar(PlaceAll(c, periods, ticker).rows, periods[n].date, ticker, BarOf(periods[n]))
    decreases |periods|
  {
    if periods == [] {
      return;
    }
    var c1 := Place(c, periods[0], ticker);
    var rest := periods[1..];
    PlaceKeepsAscending(c, periods[0], ticker);
    LandsAfterFirst(c, periods, ticker);
    assert StrictlyIncreasing(rest);
    PlaceAllLands(c1, rest, ticker);
    var result := PlaceAll(c1, rest, ticker).rows;
    assert PlaceAll(c, periods, ticker).rows == result;
    FirstLands(c, periods, ticker);
    forall n | 1 <= n < |periods|
      ensures HasBar(result, periods[n].date, ticker, BarOf(periods[n]))
    {
      assert periods[n] == rest[n - 1];
    }
  }

  /** The first period's bar stays in the row it went to while the later periods are placed. */
  lemma FirstLands(c: Cursor, periods: seq<Period>, ticker: string)
    requires Ascending(c.rows) && StrictlyIncreasing(periods) && Lands(c, periods)
    requires periods != [] && CursorFits(c, periods[0].date)
    ensures HasBar(PlaceAll(c, periods, ticker).rows, periods[0].date, ticker, BarOf(periods[0]))
  {
    var p := periods[0];
    var c1 := Place(c, p, ticker);
    PlaceLands(c, p, ticker);
    LandsAfterFirst(c, periods, ticker);
    PlaceAllKeepsRow(c1, periods[1..], ticker, c1.i);
    var result := PlaceAll(c1, periods[1..], ticker).rows;
    assert PlaceAll(c, periods, ticker).rows == result;
    assert result[c1.i] == c1.rows[c1.i];
  }

  /**
   * For strictly increasing periods that each have a row of their own date
   * to go to, every period's bar is found under `ticker` at its own date.
   */
  lemma AddDataLands(rows: seq<Row>, periods: seq<Period>, ticker: string)
    requires Ascending(rows) && StrictlyIncreasing(periods)
    requires Lands(Cursor(rows, if periods == [] then -1 else LastAtOrBefore(rows, periods[0].date)), periods)
    ensures forall n :: 0 <= n < |periods| ==>
      BarAtDate(AddDataRows(rows, periods, ticker), periods[n].date, ticker) == Some(BarOf(periods[n]))
  {
    if periods == [] {
      return;
    }
    var c := Cursor(rows, LastAtOrBefore(rows, periods[0].date));
    PlaceAllLands(c, periods, ticker);
    AddDataKeepsAscending(rows, periods, ticker);
    var result := AddDataRows(rows, periods, ticker);
    forall n | 0 <= n < |periods|
      ensures BarAtDate(result, periods[n].date, ticker) == Some(BarOf(periods[n]))
    {
      assert HasBar(result, periods[n].date, ticker, BarOf(periods[n]));
      var r :| 0 <= r < |result| && result[r].date == periods[n].date && ticker in result[r].data && result[r].data[ticker] == BarOf(periods[n]);
      LastAtOrBeforeFinds(result, r);
    }
  }

  /** A period dated between two rows is stored in the later row; no row of its date is made. */
  lemma AddDataBetweenRows()
    ensures var p := Period(5, 1.0, 1.0, 1.0, 1.0, 0, 1.0, 1.0, 1.0, 1.0, 0, 0.0, 1.0);
      AddDataRows([EmptyRow(1), EmptyRow(10)], [p], "T") == [EmptyRow(1), Row(10, map["T" := BarOf(p)])]
  {
  }

  /** Packing and then unpacking gives the same rows back, and the other way round. */
  lemma PackRoundTrip(rows: seq<Row>, packed: seq<PackedRow>)
    ensures UnpackRows(PackRows(rows)) == rows
    ensures PackRows(UnpackRows(packed)) == packed
  {
  }
}
