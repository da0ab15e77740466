/**
 * `CalculateIndicators` of server/pkg/indicators/indicator.go (copied as
 * `History.CalculateIndicators` in server/stock_data.go): for every ticker,
 * find the rows of its first and last date, then run each indicator in
 * turn over that window of rows, storing into the ticker's bars.
 *
 * The tickers come out of a Go map in no fixed order; the model takes the
 * order as a parameter and proves the outcome for every ticker does not
 * depend on it.
 */
module IndicatorEngine {
  import opened Wrappers
  import opened StockData
  import opened Indicators

  /** One ticker's bars, row by row. */
  function Column(rows: seq<Row>, ticker: string): (c: seq<Option<Bar>>)
    ensures |c| == |rows|
  {
    seq(|rows|, k requires 0 <= k < |rows| => if ticker in rows[k].data then Some(rows[k].data[ticker]) else None)
  }

  /** The row dates, in order. */
  function DatesOf(rows: seq<Row>): (d: seq<int>)
    ensures |d| == |rows|
  {
    seq(|rows|, k requires 0 <= k < |rows| => rows[k].date)
  }

  /** `after` has the dates of `before` and every ticker's bars but `ticker`'s. */
  ghost predicate Untouched(before: seq<Row>, after: seq<Row>, ticker: string)
  {
    DatesOf(after) == DatesOf(before) && forall other :: other != ticker ==> Column(after, other) == Column(before, other)
  }

  lemma UntouchedTrans(a: seq<Row>, b: seq<Row>, c: seq<Row>, ticker: string)
    requires Untouched(a, b, ticker) && Untouched(b, c, ticker)
    ensures Untouched(a, c, ticker)
  {
  }

  /** `getTarget(k)` over the window from `start`: the adjusted close, or -1 without a bar. */
  function Targets(rows: seq<Row>, ticker: string, start: nat, n: nat): (t: seq<real>)
    requires start + n <= |rows|
    ensures |t| == n
  {
    seq(n, k requires 0 <= k < n => if ticker in rows[start + k].data then rows[start + k].data[ticker].adjClose else -1.0)
  }

  /** A MACD whose periods make `Apply` panic. */
  predicate Panics(ind: Indicator)
  {
    ind.MACD? && ind.shortPeriod >= ind.longPeriod
  }

  /**
   * The inner loop for one ticker: each indicator in turn over the rows from
   * `start` to `end`, re-slicing the rows before each call. None is a panic:
   * a window whose end lies before its start, or a MACD that refuses its
   * periods.
   */
  function RunWindow(rows: seq<Row>, ticker: string, start: nat, end: nat, inds: seq<Indicator>): (r: Option<seq<Row>>)
    requires end < |rows|
    requires forall k :: 0 <= k < |inds| ==> Supported(inds[k])
    ensures r.Some? ==> |r.value| == |rows|
    decreases |inds|
  {
    if inds == [] then Some(rows)
    else if end + 1 < start then None
    else
      var window := Window(rows, ticker, start, Name(inds[0]));
      match Effect(inds[0], Targets(rows, ticker, start, end + 1 - start), window)
      case Panic => None
      case Applied(sink) => RunWindow(sink.rows, ticker, start, end, inds[1..])
  }

  lemma RunWindowFirst(rows: seq<Row>, ticker: string, start: nat, end: nat, inds: seq<Indicator>, targets: seq<real>, e: Applied)
    requires end < |rows| && start <= end + 1 && inds != []
    requires forall k :: 0 <= k < |inds| ==> Supported(inds[k])
    requires targets == Targets(rows, ticker, start, end + 1 - start)
    requires e == Effect(inds[0], targets, Window(rows, ticker, start, Name(inds[0])))
    ensures RunWindow(rows, ticker, start, end, inds) == if e.Panic? then None else RunWindow(e.sink.rows, ticker, start, end, inds[1..])
  {
  }

  /** One ticker's part: skipped when either of its dates comes before every row. */
  function RunTicker(rows: seq<Row>, ticker: string, meta: TickerMeta, inds: seq<Indicator>): (r: Option<seq<Row>>)
    requires forall k :: 0 <= k < |inds| ==> Supported(inds[k])
    ensures r.Some? ==> |r.value| == |rows|
  {
    var start := LastAtOrBefore(rows, meta.start);
    var end := LastAtOrBefore(rows, meta.end);
    if start == -1 || end == -1 then Some(rows) else RunWindow(rows, ticker, start, end, inds)
  }

  /** A ticker's bars once `CalculateIndicators` is done, when nothing panicked. */
  function Expected(rows: seq<Row>, tickers: map<string, TickerMeta>, inds: seq<Indicator>, ticker: string): seq<Option<Bar>>
    requires forall k :: 0 <= k < |inds| ==> Supported(inds[k])
  {
    if ticker in tickers && RunTicker(rows, ticker, tickers[ticker], inds).Some?
    then Column(RunTicker(rows, ticker, tickers[ticker], inds).value, ticker)
    else Column(rows, ticker)
  }

  /** `Emit` on a window changes one column, and that column only through its own bars. */
  function EmitColumn(col: seq<Option<Bar>>, start: nat, name: string, values: seq<real>, lo: nat, hi: nat): (c: seq<Option<Bar>>)
    requires lo <= hi <= |values| && start + |values| <= |col|
    ensures |c| == |col|
  {
    seq(|col|, r requires 0 <= r < |col| =>
      if start + lo <= r < start + hi && col[r].Some? then Some(Annotate(col[r].value, name, values[r - start])) else col[r])
  }

  /** Storing into `ticker`'s bars changes no date and no other ticker's bars; the ticker's own column is `EmitColumn`. */
  lemma AnnotatedColumns(rows: seq<Row>, ticker: string, start: nat, name: string, values: seq<real>, lo: nat, hi: nat, other: string)
    requires lo <= hi <= |values| && start + |values| <= |rows|
    ensures var out := Annotated(rows, ticker, start, name, values, lo, hi);
      DatesOf(out) == DatesOf(rows) &&
      Column(out, other) == if other == ticker then EmitColumn(Column(rows, ticker), start, name, values, lo, hi) else Column(rows, other)
  {
    var out := Annotated(rows, ticker, start, name, values, lo, hi);
    assert DatesOf(out) == DatesOf(rows);
    if other == ticker {
      assert Column(out, other) == EmitColumn(Column(rows, ticker), start, name, values, lo, hi);
    } else {
      assert Column(out, other) == Column(rows, other);
    }
  }

  lemma EmitColumns(rows: seq<Row>, ticker: string, start: nat, ind: Indicator, values: seq<real>, lo: nat, hi: nat, other: string)
    requires lo <= hi <= |values| && start + |values| <= |rows|
    ensures var out := Emit(Window(rows, ticker, start, Name(ind)), values, lo, hi).rows;
      DatesOf(out) == DatesOf(rows) &&
      Column(out, other) == if other == ticker then EmitColumn(Column(rows, ticker), start, Name(ind), values, lo, hi) else Column(rows, other)
  {
    AnnotatedColumns(rows, ticker, start, Name(ind), values, lo, hi, other);
  }

  /** What each index of a window keeps is read off the ticker's column. */
  lemma KeepsByColumn(rows: seq<Row>, ticker: string, start: nat, ind: Indicator, n: nat)
    requires start + n <= |rows|
    ensures KeepsAll(Window(rows, ticker, start, Name(ind)), n)
      == seq(n, k requires 0 <= k < n => Column(rows, ticker)[start + k].Some?)
  {
    var a := KeepsAll(Window(rows, ticker, start, Name(ind)), n);
    var b := seq(n, k requires 0 <= k < n => Column(rows, ticker)[start + k].Some?);
    forall k | 0 <= k < n
      ensures a[k] == b[k]
    {
      assert Column(rows, ticker)[start + k].Some? == (ticker in rows[start + k].data);
    }
  }

  lemma TargetsByColumn(rows1: seq<Row>, rows2: seq<Row>, ticker: string, start: nat, n: nat)
    requires start + n <= |rows1| == |rows2| && Column(rows1, ticker) == Column(rows2, ticker)
    ensures Targets(rows1, ticker, start, n) == Targets(rows2, ticker, start, n)
  {
    forall k | 0 <= k < n
      ensures Targets(rows1, ticker, start, n)[k] == Targets(rows2, ticker, start, n)[k]
    {
      assert Column(rows1, ticker)[start + k] == Column(rows2, ticker)[start + k];
    }
  }

  /** The values one `Apply` stores and the first index it stores at, when it does not panic. */
  function Stored(ind: Indicator, targets: seq<real>, keeps: seq<bool>): (r: (seq<real>, nat))
    requires Supported(ind) && !Panics(ind) && |keeps| == |targets|
    ensures |r.0| == |targets| && r.1 <= |targets|
  {
    match ind
    case EMA(smoothing, periodLength) => (EmaSeries(smoothing, periodLength, targets, keeps), 0)
    case MACD(shortPeriod, longPeriod) =>
      (MacdSeries(shortPeriod, longPeriod, targets), if longPeriod < |targets| then longPeriod else |targets|)
  }

  lemma EffectStores(ind: Indicator, targets: seq<real>, sink: Sink)
    requires Supported(ind) && |targets| <= Room(sink)
    ensures Effect(ind, targets, sink).Panic? <==> Panics(ind)
    ensures !Panics(ind) ==>
      var (values, lo) := Stored(ind, targets, KeepsAll(sink, |targets|));
      Effect(ind, targets, sink) == Applied(Emit(sink, values, lo, |targets|))
  {
  }

  /**
   * One `Apply` on a window panics exactly for a MACD that refuses its
   * periods; otherwise it changes no date and no other ticker's bars.
   */
  lemma EffectFrame(ind: Indicator, rows: seq<Row>, ticker: string, start: nat, n: nat, targets: seq<real>, e: Applied)
    requires Supported(ind) && start + n <= |rows|
    requires targets == Targets(rows, ticker, start, n)
    requires e == Effect(ind, targets, Window(rows, ticker, start, Name(ind)))
    ensures e.Panic? <==> Panics(ind)
    ensures e.Applied? ==> e.sink.Window? && Untouched(rows, e.sink.rows, ticker)
  {
    var window := Window(rows, ticker, start, Name(ind));
    EffectStores(ind, targets, window);
    if !Panics(ind) {
      var (values, lo) := Stored(ind, targets, KeepsAll(window, n));
      EmitColumns(rows, ticker, start, ind, values, lo, n, ticker);
      forall other | other != ticker
        ensures Column(Emit(window, values, lo, n).rows, other) == Column(rows, other)
      {
        EmitColumns(rows, ticker, start, ind, values, lo, n, other);
      }
    }
  }

  /** The ticker's bars after one `Apply` depend only on its bars before. */
  lemma EffectColumn(ind: Indicator, rows1: seq<Row>, rows2: seq<Row>, ticker: string, start: nat, n: nat)
    requires Supported(ind) && !Panics(ind) && start + n <= |rows1| == |rows2|
    requires Column(rows1, ticker) == Column(rows2, ticker)
    ensures var e1 := Effect(ind, Targets(rows1, ticker, start, n), Window(rows1, ticker, start, Name(ind)));
      var e2 := Effect(ind, Targets(rows2, ticker, start, n), Window(rows2, ticker, start, Name(ind)));
      e1.Applied? && e2.Applied? && |e1.sink.rows| == |e2.sink.rows| &&
      Column(e1.sink.rows, ticker) == Column(e2.sink.rows, ticker)
  {
    TargetsByColumn(rows1, rows2, ticker, start, n);
    var targets := Targets(rows1, ticker, start, n);
    KeepsByColumn(rows1, ticker, start, ind, n);
    KeepsByColumn(rows2, ticker, start, ind, n);
    var w1, w2 := Window(rows1, ticker, start, Name(ind)), Window(rows2, ticker, start, Name(ind));
    assert KeepsAll(w1, n) == KeepsAll(w2, n);
    EffectStores(ind, targets, w1);
    EffectStores(ind, targets, w2);
    var (values, lo) := Stored(ind, targets, KeepsAll(w1, n));
    EmitColumns(rows1, ticker, start, ind, values, lo, n, ticker);
    EmitColumns(rows2, ticker, start, ind, values, lo, n, ticker);
  }

  predicate HasPanic(inds: seq<Indicator>)
  {
    exists k :: 0 <= k < |inds| && Panics(inds[k])
  }

  lemma HasPanicFirst(inds: seq<Indicator>)
    requires inds != []
    ensures HasPanic(inds) <==> Panics(inds[0]) || HasPanic(inds[1..])
  {
    if HasPanic(inds[1..]) {
      var k :| 0 <= k < |inds[1..]| && Panics(inds[1..][k]);
      assert Panics(inds[k + 1]);
    }
    if HasPanic(inds) && !Panics(inds[0]) {
      var k :| 0 <= k < |inds| && Panics(inds[k]);
      assert Panics(inds[1..][k - 1]);
    }
  }

  /** The run for one ticker panics exactly when there is an indicator to run and the window is inverted or some MACD refuses its periods. */
  lemma {:induction false} RunWindowPanics(rows: seq<Row>, ticker: string, start: nat, end: nat, inds: seq<Indicator>)
    requires end < |rows|
    requires forall k :: 0 <= k < |inds| ==> Supported(inds[k])
    ensures RunWindow(rows, ticker, start, end, inds).None? <==> inds != [] && (end + 1 < start || HasPanic(inds))
    decreases |inds|
  {
    if inds != [] && start <= end + 1 {
      HasPanicFirst(inds);
      var targets := Targets(rows, ticker, start, end + 1 - start);
      var e := Effect(inds[0], targets, Window(rows, ticker, start, Name(inds[0])));
      RunWindowFirst(rows, ticker, start, end, inds, targets, e);
      EffectFrame(inds[0], rows, ticker, start, end + 1 - start, targets, e);
      if e.Applied? {
        RunWindowPanics(e.sink.rows, ticker, start, end, inds[1..]);
      }
    }
  }

  /** A run for one ticker changes no date and no other ticker's bars. */
  lemma {:induction false} RunWindowFrame(rows: seq<Row>, ticker: string, start: nat, end: nat, inds: seq<Indicator>)
    requires end < |rows|
    requires forall k :: 0 <= k < |inds| ==> Supported(inds[k])
    ensures var r := RunWindow(rows, ticker, start, end, inds);
      r.Some? ==> Untouched(rows, r.value, ticker)
    decreases |inds|
  {
    if inds != [] && start <= end + 1 {
      var targets := Targets(rows, ticker, start, end + 1 - start);
      var e := Effect(inds[0], targets, Window(rows, ticker, start, Name(inds[0])));
      RunWindowFirst(rows, ticker, start, end, inds, targets, e);
      EffectFrame(inds[0], rows, ticker, start, end + 1 - start, targets, e);
      if e.Applied? {
        RunWindowFrame(e.sink.rows, ticker, start, end, inds[1..]);
        if RunWindow(rows, ticker, start, end, inds).Some? {
          UntouchedTrans(rows, e.sink.rows, RunWindow(rows, ticker, start, end, inds).value, ticker);
        }
      }
    }
  }

  /** The ticker's bars after its run depend only on its bars before. */
  lemma {:induction false} RunWindowColumn(rows1: seq<Row>, rows2: seq<Row>, ticker: string, start: nat, end: nat, inds: seq<Indicator>)
    requires end < |rows1| == |rows2| && Column(rows1, ticker) == Column(rows2, ticker)
    requires forall k :: 0 <= k < |inds| ==> Supported(inds[k])
    ensures var r1, r2 := RunWindow(rows1, ticker, start, end, inds), RunWindow(rows2, ticker, start, end, inds);
      r1.None? == r2.None? && (r1.Some? ==> Column(r1.value, ticker) == Column(r2.value, ticker))
    decreases |inds|
  {
    RunWindowPanics(rows1, ticker, start, end, inds);
    RunWindowPanics(rows2, ticker, start, end, inds);
    if inds != [] && start <= end + 1 && !Panics(inds[0]) {
      var n := end + 1 - start;
      EffectColumn(inds[0], rows1, rows2, ticker, start, n);
      var t1, t2 := Targets(rows1, ticker, start, n), Targets(rows2, ticker, start, n);
      var e1 := Effect(inds[0], t1, Window(rows1, ticker, start, Name(inds[0])));
      var e2 := Effect(inds[0], t2, Window(rows2, ticker, start, Name(inds[0])));
      RunWindowFirst(rows1, ticker, start, end, inds, t1, e1);
      RunWindowFirst(rows2, ticker, start, end, inds, t2, e2);
      RunWindowColumn(e1.sink.rows, e2.sink.rows, ticker, start, end, inds[1..]);
    }
  }

  /** `LastAtOrBefore` looks at the dates only. */
  lemma {:induction false} LastAtOrBeforeByDates(rows1: seq<Row>, rows2: seq<Row>, date: int)
    requires DatesOf(rows1) == DatesOf(rows2)
    ensures LastAtOrBefore(rows1, date) == LastAtOrBefore(rows2, date)
  {
    if rows1 != [] {
      var n := |rows1|;
      assert rows1[n - 1].date == DatesOf(rows1)[n - 1] == rows2[n - 1].date;
      assert DatesOf(rows1[..n - 1]) == DatesOf(rows1)[..n - 1] == DatesOf(rows2)[..n - 1] == DatesOf(rows2[..n - 1]);
      LastAtOrBeforeByDates(rows1[..n - 1], rows2[..n - 1], date);
    }
  }

  lemma AscendingByDates(rows1: seq<Row>, rows2: seq<Row>)
    requires Ascending(rows1) && DatesOf(rows1) == DatesOf(rows2)
    ensures Ascending(rows2)
  {
    forall i, j | 0 <= i < j < |rows2|
      ensures rows2[i].date < rows2[j].date
    {
      assert rows2[i].date == DatesOf(rows1)[i] && rows2[j].date == DatesOf(rows1)[j];
    }
  }

  /** A bar with its indicator values overridden by `delta`; its prices stay. */
  function Override(bar: Bar, delta: map<string, real>): Bar
  {
    bar.(indicators := bar.indicators + delta)
  }

  /** `after` is `before` with each present bar's indicators overridden by `delta[k]`, and no bar added or removed. */
  predicate Overridden(before: seq<Option<Bar>>, after: seq<Option<Bar>>, delta: seq<map<string, real>>)
  {
    |after| == |before| == |delta| &&
    forall k :: 0 <= k < |before| ==> after[k] == if before[k].Some? then Some(Override(before[k].value, delta[k])) else None
  }

  /** Two columns with the same bars present and the same prices in each of them. */
  predicate SamePrices(a: seq<Option<Bar>>, b: seq<Option<Bar>>)
  {
    |a| == |b| &&
    forall k :: 0 <= k < |a| ==>
      a[k].Some? == b[k].Some? && (a[k].Some? ==> a[k].value.(indicators := map[]) == b[k].value.(indicators := map[]))
  }

  /**
   * `after` keeps `before`'s bars: the same rows have one, each with the
   * same prices, and outside the rows `lo` to `hi` nothing changes at all.
   */
  predicate PricesKept(before: seq<Option<Bar>>, after: seq<Option<Bar>>, lo: int, hi: int)
  {
    |after| == |before| &&
    forall k :: 0 <= k < |before| ==>
      after[k].Some? == before[k].Some? &&
      (before[k].Some? ==> after[k].value.(indicators := before[k].value.indicators) == before[k].value) &&
      (k < lo || hi < k ==> after[k] == before[k])
  }

  /** `getTarget` read off a column. */
  function PriceTargets(col: seq<Option<Bar>>, start: nat, n: nat): (t: seq<real>)
    requires start + n <= |col|
    ensures |t| == n
  {
    seq(n, k requires 0 <= k < n => if col[start + k].Some? then col[start + k].value.adjClose else -1.0)
  }

  /** Which rows of a window have a bar, read off a column. */
  function Present(col: seq<Option<Bar>>, start: nat, n: nat): (p: seq<bool>)
    requires start + n <= |col|
    ensures |p| == n
  {
    seq(n, k requires 0 <= k < n => col[start + k].Some?)
  }

  /** Row by row over `size` rows, the value stored under `name` in the rows `start + lo` up to `start + hi`. */
  function DeltaOf(size: nat, start: nat, name: string, values: seq<real>, lo: nat, hi: nat): (d: seq<map<string, real>>)
    requires lo <= hi <= |values|
    ensures |d| == size
  {
    seq(size, r requires 0 <= r < size => if start + lo <= r < start + hi then map[name := values[r - start]] else map[])
  }

  /** The names and values one `Apply` over the window stores, row by row. */
  function StepDelta(col: seq<Option<Bar>>, start: nat, end: nat, ind: Indicator): (d: seq<map<string, real>>)
    requires Supported(ind) && !Panics(ind) && start <= end + 1 && end < |col|
    ensures |d| == |col|
  {
    var n := end + 1 - start;
    var (values, lo) := Stored(ind, PriceTargets(col, start, n), Present(col, start, n));
    DeltaOf(|col|, start, Name(ind), values, lo, n)
  }

  /** Row by row, the second overrides applied after the first. */
  function Combine(d1: seq<map<string, real>>, d2: seq<map<string, real>>): (d: seq<map<string, real>>)
    requires |d1| == |d2|
    ensures |d| == |d1|
  {
    seq(|d1|, k requires 0 <= k < |d1| => d1[k] + d2[k])
  }

  function NoDelta(n: nat): (d: seq<map<string, real>>)
    ensures |d| == n
  {
    seq(n, _ => map[])
  }

  /** What a whole run of the indicators stores, row by row, computed from the prices alone. */
  function RunDelta(col: seq<Option<Bar>>, start: nat, end: nat, inds: seq<Indicator>): (d: seq<map<string, real>>)
    requires end < |col| && (inds != [] ==> start <= end + 1)
    requires forall k :: 0 <= k < |inds| ==> Supported(inds[k]) && !Panics(inds[k])
    ensures |d| == |col|
    decreases |inds|
  {
    if inds == [] then NoDelta(|col|)
    else Combine(StepDelta(col, start, end, inds[0]), RunDelta(col, start, end, inds[1..]))
  }

  lemma OverrideNothing(bar: Bar)
    ensures Override(bar, map[]) == bar
  {
    assert bar.indicators + map[] == bar.indicators;
  }

  lemma AnnotateIsOverride(bar: Bar, name: string, value: real)
    ensures Annotate(bar, name, value) == Override(bar, map[name := value])
  {
    assert bar.indicators[name := value] == bar.indicators + map[name := value];
  }

  /** Overriding twice is overriding once with the two deltas combined. */
  lemma OverrideTwice(bar: Bar, d1: map<string, real>, d2: map<string, real>)
    ensures Override(Override(bar, d1), d2) == Override(bar, d1 + d2)
  {
    assert (bar.indicators + d1) + d2 == bar.indicators + (d1 + d2);
  }

  lemma OverriddenCompose(a: seq<Option<Bar>>, b: seq<Option<Bar>>, c: seq<Option<Bar>>, d1: seq<map<string, real>>, d2: seq<map<string, real>>)
    requires Overridden(a, b, d1) && Overridden(b, c, d2)
    ensures Overridden(a, c, Combine(d1, d2))
  {
    forall k | 0 <= k < |a| && a[k].Some?
      ensures c[k] == Some(Override(a[k].value, Combine(d1, d2)[k]))
    {
      OverrideTwice(a[k].value, d1[k], d2[k]);
    }
  }

  /** Overriding indicator values keeps which bars are present and their prices. */
  lemma OverriddenSamePrices(a: seq<Option<Bar>>, b: seq<Option<Bar>>, d: seq<map<string, real>>)
    requires Overridden(a, b, d)
    ensures SamePrices(a, b)
  {
  }

  lemma TargetsOfColumn(rows: seq<Row>, ticker: string, start: nat, n: nat)
    requires start + n <= |rows|
    ensures Targets(rows, ticker, start, n) == PriceTargets(Column(rows, ticker), start, n)
  {
    forall k | 0 <= k < n
      ensures Targets(rows, ticker, start, n)[k] == PriceTargets(Column(rows, ticker), start, n)[k]
    {
      assert Column(rows, ticker)[start + k] == if ticker in rows[start + k].data then Some(rows[start + k].data[ticker]) else None;
    }
  }

  /**
   * One `Apply` that does not panic leaves the ticker's column as
   * `EmitColumn` of the values it computes from the column, from index `lo` on.
   */
  lemma StepColumn(rows: seq<Row>, ticker: string, start: nat, end: nat, ind: Indicator) returns (values: seq<real>, lo: nat)
    requires Supported(ind) && !Panics(ind) && start <= end + 1 && end < |rows|
    ensures var n := end + 1 - start;
      var col := Column(rows, ticker);
      (values, lo) == Stored(ind, PriceTargets(col, start, n), Present(col, start, n)) && |values| == n && lo <= n
    ensures var e := Effect(ind, Targets(rows, ticker, start, end + 1 - start), Window(rows, ticker, start, Name(ind)));
      e.Applied? && e.sink.Window? &&
      Column(e.sink.rows, ticker) == EmitColumn(Column(rows, ticker), start, Name(ind), values, lo, end + 1 - start)
  {
    var n := end + 1 - start;
    var col := Column(rows, ticker);
    var window := Window(rows, ticker, start, Name(ind));
    TargetsOfColumn(rows, ticker, start, n);
    KeepsByColumn(rows, ticker, start, ind, n);
    assert KeepsAll(window, n) == Present(col, start, n);
    EffectStores(ind, Targets(rows, ticker, start, n), window);
    var stored := Stored(ind, PriceTargets(col, start, n), Present(col, start, n));
    values, lo := stored.0, stored.1;
    EmitColumns(rows, ticker, start, ind, values, lo, n, ticker);
  }

  /** Annotating a column with values is overriding its bars by `DeltaOf` the same values. */
  lemma EmitOverrides(col: seq<Option<Bar>>, start: nat, name: string, values: seq<real>, lo: nat, hi: nat)
    requires lo <= hi <= |values| && start + |values| <= |col|
    ensures Overridden(col, EmitColumn(col, start, name, values, lo, hi), DeltaOf(|col|, start, name, values, lo, hi))
  {
    var after := EmitColumn(col, start, name, values, lo, hi);
    var d := DeltaOf(|col|, start, name, values, lo, hi);
    forall k | 0 <= k < |col| && col[k].Some?
      ensures after[k] == Some(Override(col[k].value, d[k]))
    {
      if start + lo <= k < start + hi {
        AnnotateIsOverride(col[k].value, name, values[k - start]);
      } else {
        OverrideNothing(col[k].value);
      }
    }
  }

  /** One `Apply` that does not panic overrides the ticker's bars by `StepDelta`. */
  lemma StepOverrides(rows: seq<Row>, ticker: string, start: nat, end: nat, ind: Indicator)
    requires Supported(ind) && !Panics(ind) && start <= end + 1 && end < |rows|
    ensures var e := Effect(ind, Targets(rows, ticker, start, end + 1 - start), Window(rows, ticker, start, Name(ind)));
      e.Applied? && e.sink.Window? &&
      Overridden(Column(rows, ticker), Column(e.sink.rows, ticker), StepDelta(Column(rows, ticker), start, end, ind))
  {
    var n := end + 1 - start;
    var col := Column(rows, ticker);
    var values, lo := StepColumn(rows, ticker, start, end, ind);
    EmitOverrides(col, start, Name(ind), values, lo, n);
    assert StepDelta(col, start, end, ind) == DeltaOf(|col|, start, Name(ind), values, lo, n);
  }

  /** The stores of a run depend only on which bars are present and on their prices. */
  lemma {:induction false} DeltaBySamePrices(col1: seq<Option<Bar>>, col2: seq<Option<Bar>>, start: nat, end: nat, inds: seq<Indicator>)
    requires SamePrices(col1, col2) && end < |col1| && (inds != [] ==> start <= end + 1)
    requires forall k :: 0 <= k < |inds| ==> Supported(inds[k]) && !Panics(inds[k])
    ensures RunDelta(col1, start, end, inds) == RunDelta(col2, start, end, inds)
    decreases |inds|
  {
    if inds != [] {
      var n := end + 1 - start;
      forall k | 0 <= k < n
        ensures PriceTargets(col1, start, n)[k] == PriceTargets(col2, start, n)[k]
      {
        if col1[start + k].Some? {
          assert col1[start + k].value.adjClose == col1[start + k].value.(indicators := map[]).adjClose;
          assert col2[start + k].value.adjClose == col2[start + k].value.(indicators := map[]).adjClose;
        }
      }
      assert PriceTargets(col1, start, n) == PriceTargets(col2, start, n);
      assert Present(col1, start, n) == Present(col2, start, n);
      assert StepDelta(col1, start, end, inds[0]) == StepDelta(col2, start, end, inds[0]);
      DeltaBySamePrices(col1, col2, start, end, inds[1..]);
    }
  }

  /**
   * A run that does not panic overrides the ticker's bars by `RunDelta`:
   * the same bars stay present, each keeps its prices, and only indicator
   * values change.
   */
  lemma {:induction false} RunWindowOverrides(rows: seq<Row>, ticker: string, start: nat, end: nat, inds: seq<Indicator>)
    requires end < |rows|
    requires forall k :: 0 <= k < |inds| ==> Supported(inds[k])
    ensures var r := RunWindow(rows, ticker, start, end, inds);
      r.Some? ==>
        !HasPanic(inds) && (inds != [] ==> start <= end + 1) &&
        Overridden(Column(rows, ticker), Column(r.value, ticker), RunDelta(Column(rows, ticker), start, end, inds))
    decreases |inds|
  {
    var r := RunWindow(rows, ticker, start, end, inds);
    var col := Column(rows, ticker);
    RunWindowPanics(rows, ticker, start, end, inds);
    if r.None? {
      return;
    }
    if inds == [] {
      forall k | 0 <= k < |col| && col[k].Some?
        ensures col[k] == Some(Override(col[k].value, NoDelta(|col|)[k]))
      {
        OverrideNothing(col[k].value);
      }
      return;
    }
    HasPanicFirst(inds);
    var n := end + 1 - start;
    var targets := Targets(rows, ticker, start, n);
    var e := Effect(inds[0], targets, Window(rows, ticker, start, Name(inds[0])));
    RunWindowFirst(rows, ticker, start, end, inds, targets, e);
    StepOverrides(rows, ticker, start, end, inds[0]);
    var col1 := Column(e.sink.rows, ticker);
    RunWindowOverrides(e.sink.rows, ticker, start, end, inds[1..]);
    OverriddenSamePrices(col, col1, StepDelta(col, start, end, inds[0]));
    DeltaBySamePrices(col, col1, start, end, inds[1..]);
    OverriddenCompose(col, col1, Column(r.value, ticker), StepDelta(col, start, end, inds[0]), RunDelta(col, start, end, inds[1..]));
  }

  /** Outside the window a run stores nothing. */
  lemma {:induction false} RunDeltaOutside(col: seq<Option<Bar>>, start: nat, end: nat, inds: seq<Indicator>, k: nat)
    requires end < |col| && (inds != [] ==> start <= end + 1)
    requires forall j :: 0 <= j < |inds| ==> Supported(inds[j]) && !Panics(inds[j])
    requires k < |col| && (k < start || end < k)
    ensures RunDelta(col, start, end, inds)[k] == map[]
    decreases |inds|
  {
    if inds != [] {
      RunDeltaOutside(col, start, end, inds[1..], k);
      assert StepDelta(col, start, end, inds[0])[k] == map[];
      var none: map<string, real> := map[];
      assert none + none == none;
    }
  }

  /**
   * A run for one ticker writes only indicator values of that ticker's own
   * bars in the rows `start` to `end`: no bar appears or disappears, every
   * price is kept, and the bars outside the window do not change.
   */
  lemma RunWindowOwnFrame(rows: seq<Row>, ticker: string, start: nat, end: nat, inds: seq<Indicator>)
    requires end < |rows|
    requires forall k :: 0 <= k < |inds| ==> Supported(inds[k])
    ensures var r := RunWindow(rows, ticker, start, end, inds);
      r.Some? ==> PricesKept(Column(rows, ticker), Column(r.value, ticker), start, end)
  {
    var r := RunWindow(rows, ticker, start, end, inds);
    RunWindowOverrides(rows, ticker, start, end, inds);
    if r.Some? {
      var col := Column(rows, ticker);
      var d := RunDelta(col, start, end, inds);
      forall k | 0 <= k < |col| && (k < start || end < k)
        ensures Column(r.value, ticker)[k] == col[k]
      {
        RunDeltaOutside(col, start, end, inds, k);
        if col[k].Some? {
          OverrideNothing(col[k].value);
        }
      }
    }
  }

  /** Rows with the same dates and the same bars for every ticker are the same rows. */
  lemma RowsByColumns(a: seq<Row>, b: seq<Row>)
    requires DatesOf(a) == DatesOf(b) && forall t :: Column(a, t) == Column(b, t)
    ensures a == b
  {
    forall k | 0 <= k < |a|
      ensures a[k] == b[k]
    {
      assert a[k].date == DatesOf(a)[k] == DatesOf(b)[k] == b[k].date;
      forall t
        ensures (t in a[k].data <==> t in b[k].data) && (t in a[k].data ==> a[k].data[t] == b[k].data[t])
      {
        assert Column(a, t)[k] == Column(b, t)[k];
      }
      assert a[k].data == b[k].data;
    }
  }

  /**
   * Recomputing is idempotent: running the same indicators over the same
   * window again, on the rows a run left, changes nothing.
   */
  lemma RunWindowIdempotent(rows: seq<Row>, ticker: string, start: nat, end: nat, inds: seq<Indicator>)
    requires end < |rows|
    requires forall k :: 0 <= k < |inds| ==> Supported(inds[k])
    ensures var r1 := RunWindow(rows, ticker, start, end, inds);
      r1.Some? ==> RunWindow(r1.value, ticker, start, end, inds) == r1
  {
    var r1 := RunWindow(rows, ticker, start, end, inds);
    if r1.None? {
      return;
    }
    var rows1 := r1.value;
    RunWindowPanics(rows, ticker, start, end, inds);
    RunWindowPanics(rows1, ticker, start, end, inds);
    var r2 := RunWindow(rows1, ticker, start, end, inds);
    var rows2 := r2.value;
    var col, col1, col2 := Column(rows, ticker), Column(rows1, ticker), Column(rows2, ticker);
    RunWindowOverrides(rows, ticker, start, end, inds);
    RunWindowOverrides(rows1, ticker, start, end, inds);
    var d := RunDelta(col, start, end, inds);
    OverriddenSamePrices(col, col1, d);
    DeltaBySamePrices(col, col1, start, end, inds);
    forall k | 0 <= k < |col1|
      ensures col2[k] == col1[k]
    {
      if col[k].Some? {
        OverrideTwice(col[k].value, d[k], d[k]);
        assert d[k] + d[k] == d[k];
      }
    }
    assert col2 == col1;
    RunWindowFrame(rows1, ticker, start, end, inds);
    forall t
      ensures Column(rows2, t) == Column(rows1, t)
    {
    }
    RowsByColumns(rows2, rows1);
  }

  /** The window `CalculateIndicators` runs `ticker` over: the rows of its two dates, or none when it is skipped. */
  function TickerWindow(rows: seq<Row>, tickers: map<string, TickerMeta>, ticker: string): (w: (int, int))
  {
    if ticker !in tickers then (0, -1)
    else
      var start := LastAtOrBefore(rows, tickers[ticker].start);
      var end := LastAtOrBefore(rows, tickers[ticker].end);
      if start == -1 || end == -1 then (0, -1) else (start, end)
  }

  /** A ticker's expected bars keep its prices, and change nothing outside its window. */
  lemma ExpectedPricesKept(rows: seq<Row>, tickers: map<string, TickerMeta>, inds: seq<Indicator>, ticker: string)
    requires forall k :: 0 <= k < |inds| ==> Supported(inds[k])
    ensures var w := TickerWindow(rows, tickers, ticker);
      PricesKept(Column(rows, ticker), Expected(rows, tickers, inds, ticker), w.0, w.1)
  {
    var w := TickerWindow(rows, tickers, ticker);
    if ticker in tickers && w.1 >= 0 {
      WindowRun(rows, ticker, tickers[ticker], inds, w.0, w.1);
      RunWindowOwnFrame(rows, ticker, w.0, w.1, inds);
    }
  }

  /** The inner loop of `CalculateIndicators` for one ticker, on the history's rows. */
  method RunIndicators(h: History, ticker: string, start: nat, end: nat, inds: seq<Indicator>) returns (panicked: bool)
    requires end < |h.rows|
    requires forall k :: 0 <= k < |inds| ==> Supported(inds[k])
    modifies h
    ensures h.tickers == old(h.tickers) && Untouched(old(h.rows), h.rows, ticker)
    ensures panicked <==> RunWindow(old(h.rows), ticker, start, end, inds).None?
    ensures !panicked ==> h.rows == RunWindow(old(h.rows), ticker, start, end, inds).value
  {
    ghost var goal := RunWindow(h.rows, ticker, start, end, inds);
    for k := 0 to |inds|
      invariant |h.rows| == |old(h.rows)| && Untouched(old(h.rows), h.rows, ticker)
      invariant h.tickers == old(h.tickers)
      invariant RunWindow(h.rows, ticker, start, end, inds[k..]) == goal
    {
      if end + 1 < start {
        return true;
      }
      ghost var rest := inds[k..];
      assert rest[0] == inds[k] && rest[1..] == inds[k + 1..];
      var ind := inds[k];
      var rows := h.rows;
      var targets := Targets(rows, ticker, start, end + 1 - start);
      var r := Apply(ind, targets, Window(rows, ticker, start, Name(ind)));
      EffectFrame(ind, rows, ticker, start, end + 1 - start, targets, r);
      RunWindowFirst(rows, ticker, start, end, rest, targets, r);
      if r.Panic? {
        return true;
      }
      UntouchedTrans(old(h.rows), h.rows, r.sink.rows, ticker);
      h.rows := r.sink.rows;
    }
    return false;
  }

  /**
   * After the tickers in `visited` are done: each of them ran without a
   * panic and has its bars as its own run leaves them, and every other
   * ticker still has its bars from `rows0`.
   */
  ghost predicate Done(rows0: seq<Row>, tickers: map<string, TickerMeta>, inds: seq<Indicator>, visited: seq<string>, rows: seq<Row>)
    requires forall k :: 0 <= k < |inds| ==> Supported(inds[k])
  {
    (forall t :: t in visited ==> t in tickers && RunTicker(rows0, t, tickers[t], inds).Some?) &&
    (forall t :: Column(rows, t) == if t in visited then Expected(rows0, tickers, inds, t) else Column(rows0, t))
  }

  /** Finishing one more ticker, whose run did not panic, extends `Done` by that ticker. */
  lemma DoneStep(rows0: seq<Row>, tickers: map<string, TickerMeta>, inds: seq<Indicator>, visited: seq<string>,
                 ticker: string, before: seq<Row>, after: seq<Row>, run: seq<Row>)
    requires forall k :: 0 <= k < |inds| ==> Supported(inds[k])
    requires Done(rows0, tickers, inds, visited, before)
    requires ticker in tickers && ticker !in visited
    requires RunTicker(rows0, ticker, tickers[ticker], inds) == Some(run)
    requires Column(after, ticker) == Column(run, ticker)
    requires forall other :: other != ticker ==> Column(after, other) == Column(before, other)
    ensures Done(rows0, tickers, inds, visited + [ticker], after)
  {
    forall t
      ensures Column(after, t) == if t in visited + [ticker] then Expected(rows0, tickers, inds, t) else Column(rows0, t)
    {
      if t != ticker {
        assert Column(before, t) == if t in visited then Expected(rows0, tickers, inds, t) else Column(rows0, t);
      }
    }
  }

  /** For a ticker skipped because of its dates, the run leaves the rows as they are. */
  lemma SkippedRun(rows: seq<Row>, ticker: string, meta: TickerMeta, inds: seq<Indicator>)
    requires forall k :: 0 <= k < |inds| ==> Supported(inds[k])
    requires LastAtOrBefore(rows, meta.start) == -1 || LastAtOrBefore(rows, meta.end) == -1
    ensures RunTicker(rows, ticker, meta, inds) == Some(rows)
  {
  }

  /** For a ticker with both dates found, its run is the run over that window. */
  lemma WindowRun(rows: seq<Row>, ticker: string, meta: TickerMeta, inds: seq<Indicator>, start: nat, end: nat)
    requires forall k :: 0 <= k < |inds| ==> Supported(inds[k])
    requires LastAtOrBefore(rows, meta.start) == start && LastAtOrBefore(rows, meta.end) == end
    ensures RunTicker(rows, ticker, meta, inds) == RunWindow(rows, ticker, start, end, inds)
  {
  }

  /**
   * `CalculateIndicators`, visiting the tickers in `order` (every ticker
   * once). It panics exactly when some ticker does, and every ticker's bars
   * end as that ticker's own run leaves them, whatever the order.
   */
  method CalculateIndicators(h: History, inds: seq<Indicator>, order: seq<string>) returns (panicked: bool)
    requires h.Valid()
    requires forall k :: 0 <= k < |inds| ==> Supported(inds[k])
    requires forall t :: t in h.tickers <==> t in order
    requires forall a, b :: 0 <= a < b < |order| ==> order[a] != order[b]
    modifies h
    ensures h.Valid() && h.tickers == old(h.tickers) && DatesOf(h.rows) == DatesOf(old(h.rows))
    ensures panicked <==> exists t :: t in old(h.tickers) && RunTicker(old(h.rows), t, old(h.tickers)[t], inds).None?
    ensures !panicked ==> forall t :: Column(h.rows, t) == Expected(old(h.rows), old(h.tickers), inds, t)
    ensures !panicked ==> forall t ::
      PricesKept(Column(old(h.rows), t), Column(h.rows, t), TickerWindow(old(h.rows), old(h.tickers), t).0, TickerWindow(old(h.rows), old(h.tickers), t).1)
  {
    ghost var rows0 := h.rows;
    ghost var tickers := h.tickers;
    for j := 0 to |order|
      invariant h.tickers == tickers && DatesOf(h.rows) == DatesOf(rows0) && h.Valid()
      invariant Done(rows0, tickers, inds, order[..j], h.rows)
    {
      var ticker := order[j];
      assert ticker !in order[..j];
      assert order[..j + 1] == order[..j] + [ticker];
      var meta := h.tickers[ticker];
      var start, _ := h.GetClosestRowBefore(meta.start);
      var end, _ := h.GetClosestRowBefore(meta.end);
      LastAtOrBeforeByDates(h.rows, rows0, meta.start);
      LastAtOrBeforeByDates(h.rows, rows0, meta.end);
      ghost var before := h.rows;
      if start == -1 || end == -1 {
        SkippedRun(rows0, ticker, meta, inds);
        assert Column(before, ticker) == Column(rows0, ticker);
        DoneStep(rows0, tickers, inds, order[..j], ticker, before, before, rows0);
        continue;
      }
      WindowRun(rows0, ticker, meta, inds, start, end);
      RunWindowColumn(before, rows0, ticker, start, end, inds);
      RunWindowFrame(before, ticker, start, end, inds);
      var failed := RunIndicators(h, ticker, start, end, inds);
      AscendingByDates(before, h.rows);
      if failed {
        assert ticker in old(h.tickers) && RunTicker(rows0, ticker, meta, inds).None?;
        return true;
      }
      assert Column(before, ticker) == Column(rows0, ticker);
      DoneStep(rows0, tickers, inds, order[..j], ticker, before, h.rows, RunWindow(rows0, ticker, start, end, inds).value);
    }
    assert order[..|order|] == order;
    forall t
      ensures PricesKept(Column(rows0, t), Column(h.rows, t), TickerWindow(rows0, tickers, t).0, TickerWindow(rows0, tickers, t).1)
    {
      ExpectedPricesKept(rows0, tickers, inds, t);
    }
    return false;
  }
}
