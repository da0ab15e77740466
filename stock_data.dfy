/**
 * The sparse time series of server/pkg/models/stock_data.go (copied in
 * server/stock_data.go): rows sorted by date, each mapping a ticker to its
 * bar for that date, plus the first and last date loaded for each ticker.
 * Dates are whole Unix seconds.
 */
module StockData {
  import opened Wrappers

  /** `TickerPeriod`: one ticker's bar on one date, with the indicator values computed on it. */
  datatype Bar = Bar(
    open: real, high: real, low: real, close: real, volume: int,
    adjClose: real, adjHigh: real, adjLow: real, adjOpen: real, adjVolume: int,
    divCash: real, splitFactor: real,
    indicators: map<string, real>)

  /** `PackedPeriod`: a bar as the price feed delivers it, with its date. */
  datatype Period = Period(
    date: int,
    open: real, high: real, low: real, close: real, volume: int,
    adjClose: real, adjHigh: real, adjLow: real, adjOpen: real, adjVolume: int,
    divCash: real, splitFactor: real)

  /** `TickerMeta`: the first and the last date loaded for a ticker. */
  datatype TickerMeta = TickerMeta(start: int, end: int)

  /** `Row`: every ticker's bar on one date. */
  datatype Row = Row(date: int, data: map<string, Bar>)

  /** `PackedRow`: a row with a plain map, for serialisation. */
  datatype PackedRow = PackedRow(date: int, data: map<string, Bar>)

  /** `PackedHistory`: a history with packed rows, for serialisation. */
  datatype PackedHistory = PackedHistory(tickers: map<string, TickerMeta>, rows: seq<PackedRow>)

  /** The position of `AddData`'s loop: the rows so far and the cursor `i`. */
  datatype Cursor = Cursor(rows: seq<Row>, i: int)

  /** Row dates strictly increase. */
  predicate Ascending(rows: seq<Row>)
  {
    forall i, j :: 0 <= i < j < |rows| ==> rows[i].date < rows[j].date
  }

  /** The bar `AddData` stores for a period: the period's fields and no indicators. */
  function BarOf(p: Period): Bar
  {
    Bar(p.open, p.high, p.low, p.close, p.volume,
        p.adjClose, p.adjHigh, p.adjLow, p.adjOpen, p.adjVolume,
        p.divCash, p.splitFactor, map[])
  }

  function EmptyRow(date: int): Row
  {
    Row(date, map[])
  }

  /** `Data.Store(ticker, bar)`: a row with `ticker`'s bar replaced. */
  function Store(row: Row, ticker: string, bar: Bar): (r: Row)
    ensures r.date == row.date && ticker in r.data && r.data[ticker] == bar
    ensures forall t :: t != ticker ==> (t in r.data <==> t in row.data) && (t in row.data ==> r.data[t] == row.data[t])
  {
    row.(data := row.data[ticker := bar])
  }

  /** The index of the last row dated at or before `date`, or -1 when there is none. */
  function LastAtOrBefore(rows: seq<Row>, date: int): (k: int)
    ensures -1 <= k < |rows|
    ensures k >= 0 ==> rows[k].date <= date
    ensures forall j :: k < j < |rows| ==> rows[j].date > date
  {
    if rows == [] then -1
    else if rows[|rows| - 1].date <= date then |rows| - 1
    else LastAtOrBefore(rows[..|rows| - 1], date)
  }

  /** The inner `for` of `AddData`: from `i`, skip the rows dated before `date`. */
  function Advance(rows: seq<Row>, i: nat, date: int): (j: nat)
    requires i <= |rows|
    ensures i <= j <= |rows|
    ensures j < |rows| ==> rows[j].date >= date
    ensures forall k :: i <= k < j ==> rows[k].date < date
    decreases |rows| - i
  {
    if i < |rows| && rows[i].date < date then Advance(rows, i + 1, date) else i
  }

  /**
   * One turn of `AddData`'s loop for period `p`: a row dated `p.date` is put
   * in front when the cursor is -1; the cursor skips the rows dated before
   * `p.date`; a row dated `p.date` is appended when it runs off the end; the
   * bar goes into the row under the cursor.
   */
  function Place(c: Cursor, p: Period, ticker: string): (r: Cursor)
    requires -1 <= c.i < |c.rows|
    ensures 0 <= r.i < |r.rows|
  {
    var rows1 := if c.i == -1 then [EmptyRow(p.date)] + c.rows else c.rows;
    var i1 := if c.i == -1 then 0 else c.i;
    var j := Advance(rows1, i1, p.date);
    var rows2 := if j == |rows1| then rows1 + [EmptyRow(p.date)] else rows1;
    Cursor(rows2[j := Store(rows2[j], ticker, BarOf(p))], j)
  }

  /** The loop of `AddData` over `periods`, from cursor `c`. */
  function PlaceAll(c: Cursor, periods: seq<Period>, ticker: string): (r: Cursor)
    requires -1 <= c.i < |c.rows|
    ensures -1 <= r.i < |r.rows|
    decreases |periods|
  {
    if periods == [] then c
    else PlaceAll(Place(c, periods[0], ticker), periods[1..], ticker)
  }

  lemma PlaceAllFirst(c: Cursor, periods: seq<Period>, ticker: string)
    requires -1 <= c.i < |c.rows| && periods != []
    ensures PlaceAll(c, periods, ticker) == PlaceAll(Place(c, periods[0], ticker), periods[1..], ticker)
  {
  }

  /** The rows after `AddData(periods, ticker)`. */
  function AddDataRows(rows: seq<Row>, periods: seq<Period>, ticker: string): seq<Row>
  {
    if periods == [] then rows
    else PlaceAll(Cursor(rows, LastAtOrBefore(rows, periods[0].date)), periods, ticker).rows
  }

  /** The ticker metadata after `AddData(periods, ticker)`. */
  function AddDataTickers(tickers: map<string, TickerMeta>, periods: seq<Period>, ticker: string): map<string, TickerMeta>
  {
    if periods == [] then tickers
    else tickers[ticker := TickerMeta(periods[0].date, periods[|periods| - 1].date)]
  }

  /** One turn of the loop keeps the rows ascending. */
  lemma PlaceKeepsAscending(c: Cursor, p: Period, ticker: string)
    requires Ascending(c.rows) && -1 <= c.i < |c.rows|
    requires c.i == -1 ==> forall k :: 0 <= k < |c.rows| ==> c.rows[k].date > p.date
    ensures Ascending(Place(c, p, ticker).rows)
  {
    var rows1 := if c.i == -1 then [EmptyRow(p.date)] + c.rows else c.rows;
    var i1 := if c.i == -1 then 0 else c.i;
    assert Ascending(rows1);
    var j := Advance(rows1, i1, p.date);
    if j == |rows1| {
      assert rows1[|rows1| - 1].date < p.date;
      assert Ascending(rows1 + [EmptyRow(p.date)]);
    }
  }

  lemma {:induction false} PlaceAllKeepsAscending(c: Cursor, periods: seq<Period>, ticker: string)
    requires Ascending(c.rows) && -1 <= c.i < |c.rows|
    requires c.i == -1 && periods != [] ==> forall k :: 0 <= k < |c.rows| ==> c.rows[k].date > periods[0].date
    ensures Ascending(PlaceAll(c, periods, ticker).rows)
    decreases |periods|
  {
    if periods != [] {
      PlaceKeepsAscending(c, periods[0], ticker);
      PlaceAllKeepsAscending(Place(c, periods[0], ticker), periods[1..], ticker);
    }
  }

  /** `AddData` keeps the rows strictly ascending, whatever the order of the periods. */
  lemma AddDataKeepsAscending(rows: seq<Row>, periods: seq<Period>, ticker: string)
    requires Ascending(rows)
    ensures Ascending(AddDataRows(rows, periods, ticker))
  {
    if periods != [] {
      PlaceAllKeepsAscending(Cursor(rows, LastAtOrBefore(rows, periods[0].date)), periods, ticker);
    }
  }

  /** `Row.Pack`. */
  function PackRow(r: Row): PackedRow
  {
    PackedRow(r.date, r.data)
  }

  /** `PackedRow.Unpack`. */
  function UnpackRow(pr: PackedRow): Row
  {
    Row(pr.date, pr.data)
  }

  function PackRows(rows: seq<Row>): (packed: seq<PackedRow>)
    ensures |packed| == |rows|
  {
    seq(|rows|, i requires 0 <= i < |rows| => PackRow(rows[i]))
  }

  function UnpackRows(packed: seq<PackedRow>): (rows: seq<Row>)
    ensures |rows| == |packed|
  {
    seq(|packed|, i requires 0 <= i < |packed| => UnpackRow(packed[i]))
  }

  /** Packed row dates strictly increase: what a cached history must satisfy to be usable. */
  predicate PackedAscending(packed: seq<PackedRow>)
  {
    forall i, j :: 0 <= i < j < |packed| ==> packed[i].date < packed[j].date
  }

  /** Packing and unpacking neither create nor repair an order: rows are ascending iff their packed form is. */
  lemma PackedAscendingIff(rows: seq<Row>, packed: seq<PackedRow>)
    ensures Ascending(rows) <==> PackedAscending(PackRows(rows))
    ensures Ascending(UnpackRows(packed)) <==> PackedAscending(packed)
  {
    assert forall i :: 0 <= i < |rows| ==> PackRows(rows)[i].date == rows[i].date;
    assert forall i :: 0 <= i < |packed| ==> UnpackRows(packed)[i].date == packed[i].date;
  }

  /** `History`: the metadata per ticker and the rows, which `AddData` changes in place. */
  class History {
    var tickers: map<string, TickerMeta>
    var rows: seq<Row>

    ghost predicate Valid()
      reads this
    {
      Ascending(rows)
    }

    /** `NewHistory`: no tickers and no rows. */
    constructor ()
      ensures Valid() && tickers == map[] && rows == []
    {
      tickers := map[];
      rows := [];
    }

    /**
     * `GetClosestRowBefore`: binary search for the last row dated at or
     * before `date`; (-1, none) when every row is later or there is no row.
     */
    method GetClosestRowBefore(date: int) returns (index: int, row: Option<Row>)
      requires Valid()
      ensures index == LastAtOrBefore(rows, date)
      ensures index == -1 <==> row == None
      ensures index >= 0 ==> row == Some(rows[index])
    {
      if |rows| == 0 {
        return -1, None;
      }
      var left, right := 0, |rows| - 1;
      var closest: Option<Row> := None;
      while left <= right
        invariant 0 <= left <= right + 1 <= |rows|
        invariant forall j :: 0 <= j < left ==> rows[j].date < date
        invariant forall j :: right < j < |rows| ==> rows[j].date > date
        invariant closest == None <==> left == 0
        invariant left > 0 ==> closest == Some(rows[left - 1])
        decreases right - left
      {
        var mid := left + (right - left) / 2;
        if rows[mid].date == date {
          return mid, Some(rows[mid]);
        } else if rows[mid].date < date {
          closest := Some(rows[mid]);
          left := mid + 1;
        } else {
          right := mid - 1;
        }
      }
      if closest == None {
        return -1, None;
      }
      return right, closest;
    }

    /**
     * `AddData`: record the ticker's first and last date, then merge the
     * periods into the rows with one forward-moving cursor.
     */
    method AddData(periods: seq<Period>, ticker: string)
      requires Valid()
      modifies this
      ensures rows == AddDataRows(old(rows), periods, ticker)
      ensures tickers == AddDataTickers(old(tickers), periods, ticker)
      ensures Valid()
    {
      AddDataKeepsAscending(rows, periods, ticker);
      if |periods| == 0 {
        return;
      }
      tickers := tickers[ticker := TickerMeta(periods[0].date, periods[|periods| - 1].date)];
      var i, _ := GetClosestRowBefore(periods[0].date);
      PlacePeriods(periods, ticker, i);
    }

    /** The loop of `AddData`: place each period in turn, the cursor moving forward from `i0`. */
    method PlacePeriods(periods: seq<Period>, ticker: string, i0: int)
      requires -1 <= i0 < |rows|
      modifies this
      ensures rows == PlaceAll(Cursor(old(rows), i0), periods, ticker).rows
      ensures tickers == old(tickers)
    {
      var i := i0;
      for k := 0 to |periods|
        invariant -1 <= i < |rows|
        invariant PlaceAll(Cursor(rows, i), periods[k..], ticker) == PlaceAll(Cursor(old(rows), i0), periods, ticker)
        invariant tickers == old(tickers)
      {
        PlaceAllFirst(Cursor(rows, i), periods[k..], ticker);
        assert periods[k..][0] == periods[k] && periods[k..][1..] == periods[k + 1..];
        i := PlacePeriod(periods[k], ticker, i);
      }
    }

    /** One turn of the loop of `AddData`: place period `p` from cursor `i0`. */
    method PlacePeriod(p: Period, ticker: string, i0: int) returns (i: int)
      requires -1 <= i0 < |rows|
      modifies this
      ensures Cursor(rows, i) == Place(Cursor(old(rows), i0), p, ticker)
      ensures tickers == old(tickers)
    {
      i := i0;
      if i == -1 {
        rows := [EmptyRow(p.date)] + rows;
        i := i + 1;
      }
      ghost var rows1, i1 := rows, i;
      while |rows| > i && rows[i].date < p.date
        invariant i1 <= i <= |rows|
        invariant Advance(rows, i, p.date) == Advance(rows, i1, p.date)
        decreases |rows| - i
      {
        i := i + 1;
      }
      assert i == Advance(rows1, i1, p.date);
      if i == |rows| {
        rows := rows + [EmptyRow(p.date)];
      }
      rows := rows[i := Store(rows[i], ticker, BarOf(p))];
    }

    /** `Pack`: the same metadata and one packed row per row. */
    method Pack() returns (packed: PackedHistory)
      ensures packed == PackedHistory(tickers, PackRows(rows))
      ensures Valid() ==> PackedAscending(packed.rows)
    {
      PackedAscendingIff(rows, []);
      var out: seq<PackedRow> := [];
      for i := 0 to |rows|
        invariant out == PackRows(rows[..i])
      {
        out := out + [PackRow(rows[i])];
      }
      assert rows[..|rows|] == rows;
      packed := PackedHistory(tickers, out);
    }
  }

  /** `PackedHistory.Unpack`: a fresh history with the same metadata and one row per packed row. */
  method Unpack(packed: PackedHistory) returns (h: History)
    ensures fresh(h)
    ensures h.tickers == packed.tickers && h.rows == UnpackRows(packed.rows)
    ensures h.Valid() <==> PackedAscending(packed.rows)
  {
    PackedAscendingIff([], packed.rows);
    h := new History();
    var out: seq<Row> := [];
    for i := 0 to |packed.rows|
      invariant out == UnpackRows(packed.rows[..i])
    {
      out := out + [UnpackRow(packed.rows[i])];
    }
    assert packed.rows[..|packed.rows|] == packed.rows;
    h.tickers := packed.tickers;
    h.rows := out;
  }
}
