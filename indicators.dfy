/**
 * The two indicators of server/pkg/indicators (copied in server/stock_data.go)
 * and the accessors they are handed. An indicator reads a price with
 * `getTarget`, reads back a stored value with `getIndicator` and stores one
 * with `setValue`; `CalculateIndicators` points these at a ticker's bars in
 * a window of rows, and MACD points them at two local buffers.
 */
module Indicators {
  import opened StockData

  datatype Indicator =
    | EMA(smoothing: int, periodLength: int)
    | MACD(shortPeriod: int, longPeriod: int)

  /** The decimal digits of `n`, as `%d` prints them. */
  function Digits(n: nat): string
    decreases n
  {
    if n < 10 then [DigitChar(n)] else Digits(n / 10) + [DigitChar(n % 10)]
  }

  function DigitChar(d: nat): (c: char)
    requires d < 10
    ensures '0' <= c <= '9'
  {
    ['0', '1', '2', '3', '4', '5', '6', '7', '8', '9'][d]
  }

  /** `%d` of an int: a minus sign, then the digits of the magnitude. */
  function IntToString(i: int): string
  {
    if i < 0 then "-" + Digits(-i) else Digits(i)
  }

  /** Two parameters as `Name` prints them: both numbers, one space between. */
  function Parameters(a: int, b: int): string
  {
    IntToString(a) + " " + IntToString(b)
  }

  /** `Name`: "EMA <smoothing> <periodLength>" or "MACD <shortPeriod> <longPeriod>". */
  function Name(ind: Indicator): (r: string)
    ensures |r| >= 1 && (r[0] == 'E' <==> ind.EMA?)
  {
    match ind
    case EMA(s, p) => "EMA " + Parameters(s, p)
    case MACD(s, l) => "MACD " + Parameters(s, l)
  }

  /** `%d` of a natural number is a non-empty run of digits, one digit long exactly below 10. */
  lemma {:induction false} DigitsShape(n: nat)
    ensures |Digits(n)| >= 1 && forall k :: 0 <= k < |Digits(n)| ==> '0' <= Digits(n)[k] <= '9'
    ensures n < 10 <==> |Digits(n)| == 1
    decreases n
  {
    if n >= 10 {
      DigitsShape(n / 10);
    }
  }

  /** `%d` of an int has no space, and starts with a minus sign exactly when the int is negative. */
  lemma IntToStringShape(i: int)
    ensures ' ' !in IntToString(i)
    ensures |IntToString(i)| >= 1 && (IntToString(i)[0] == '-' <==> i < 0)
  {
    var d := Digits(if i < 0 then -i else i);
    DigitsShape(if i < 0 then -i else i);
    assert IntToString(i) == if i < 0 then "-" + d else d;
    assert forall k :: 0 <= k < |IntToString(i)| ==> IntToString(i)[k] != ' ';
  }

  lemma {:induction false} DigitsInjective(a: nat, b: nat)
    requires Digits(a) == Digits(b)
    ensures a == b
    decreases a
  {
    DigitsShape(a);
    DigitsShape(b);
    if a >= 10 && b >= 10 {
      var da, db := Digits(a), Digits(b);
      assert da[..|da| - 1] == Digits(a / 10) && db[..|db| - 1] == Digits(b / 10);
      DigitsInjective(a / 10, b / 10);
      assert DigitChar(a % 10) == da[|da| - 1] == DigitChar(b % 10);
    } else if a < 10 && b < 10 {
      assert DigitChar(a) == Digits(a)[0];
    }
  }

  lemma IntToStringInjective(a: int, b: int)
    requires IntToString(a) == IntToString(b)
    ensures a == b
  {
    var sa, sb := IntToString(a), IntToString(b);
    IntToStringShape(a);
    IntToStringShape(b);
    if a < 0 && b < 0 {
      assert sa[1..] == Digits(-a) && sb[1..] == Digits(-b);
      DigitsInjective(-a, -b);
    } else if a >= 0 && b >= 0 {
      DigitsInjective(a, b);
    }
  }

  /** The index of the first space in `s`, or its length when there is none. */
  function SpaceAt(s: string): (k: nat)
    ensures k <= |s|
  {
    if s == [] || s[0] == ' ' then 0 else 1 + SpaceAt(s[1..])
  }

  lemma {:induction false} SpaceAtJoin(a: string, b: string)
    requires ' ' !in a
    ensures SpaceAt(a + " " + b) == |a|
  {
    if a != [] {
      assert (a + " " + b)[1..] == a[1..] + " " + b;
      SpaceAtJoin(a[1..], b);
    }
  }

  /** Two space-free words joined by one space split back at that space. */
  lemma SplitAtSpace(a: string, b: string, c: string, d: string)
    requires ' ' !in a && ' ' !in c
    requires a + " " + b == c + " " + d
    ensures a == c && b == d
  {
    var s := a + " " + b;
    SpaceAtJoin(a, b);
    SpaceAtJoin(c, d);
    assert a == s[..|a|] && c == s[..|c|];
    assert b == s[|a| + 1..] && d == s[|c| + 1..];
  }

  /** The parameters follow the prefix as two space-free numbers and can be read back. */
  lemma ParametersInjective(prefix: string, x1: int, x2: int, y1: int, y2: int)
    requires prefix + Parameters(x1, x2) == prefix + Parameters(y1, y2)
    ensures x1 == y1 && x2 == y2
  {
    assert Parameters(x1, x2) == (prefix + Parameters(x1, x2))[|prefix|..];
    assert Parameters(y1, y2) == (prefix + Parameters(y1, y2))[|prefix|..];
    IntToStringShape(x1);
    IntToStringShape(y1);
    SplitAtSpace(IntToString(x1), IntToString(x2), IntToString(y1), IntToString(y2));
    IntToStringInjective(x1, y1);
    IntToStringInjective(x2, y2);
  }

  /** Different indicators store their values under different names. */
  lemma NameInjective(x: Indicator, y: Indicator)
    requires Name(x) == Name(y)
    ensures x == y
  {
    assert Name(x)[0] == Name(y)[0];
    if x.EMA? && y.EMA? {
      ParametersInjective("EMA ", x.smoothing, x.periodLength, y.smoothing, y.periodLength);
    } else if x.MACD? && y.MACD? {
      ParametersInjective("MACD ", x.shortPeriod, x.longPeriod, y.shortPeriod, y.longPeriod);
    }
  }

  function Sum(xs: seq<real>): real
  {
    if xs == [] then 0.0 else Sum(xs[..|xs| - 1]) + xs[|xs| - 1]
  }

  lemma SumPrefix(xs: seq<real>, i: nat)
    requires i < |xs|
    ensures Sum(xs[..i + 1]) == Sum(xs[..i]) + xs[i]
  {
    assert xs[..i + 1][..i] == xs[..i];
  }

  /** A running sum over the number of values it adds up. */
  function Average(total: real, count: nat): real
    requires count > 0
  {
    total / count as real
  }

  /** One smoothing step: the price weighted by `sf` plus the previous value weighted by `1 - sf`. */
  function Smooth(target: real, previous: real, sf: real): real
  {
    target * sf + previous * (1.0 - sf)
  }

  /** The smoothing factor `smoothing / (periodLength + 1)`. */
  function Factor(smoothing: int, periodLength: int): real
    requires periodLength >= 1
  {
    smoothing as real / (periodLength + 1) as real
  }

  /**
   * The EMA value at index `i`: the mean of the first `i + 1` prices while
   * `i` is below the period; after that the price weighted by the factor
   * plus the value read back at `i - 1` weighted by one minus the factor.
   * The value read back is the one stored there, or -1 when index `i - 1`
   * keeps nothing (a row without the ticker's bar).
   */
  function EmaValue(smoothing: int, periodLength: int, targets: seq<real>, keeps: seq<bool>, i: nat): (r: real)
    requires periodLength >= 1 && i < |targets| && |keeps| == |targets|
    ensures NonNegative(targets) && (forall k :: 0 <= k < |keeps| ==> keeps[k]) && 0 <= smoothing <= periodLength + 1 ==> r >= 0.0
    decreases i
  {
    if i < periodLength then
      MeanNonNegative(targets[..i + 1]);
      Average(Sum(targets[..i + 1]), i + 1)
    else
      var previous := if keeps[i - 1] then EmaValue(smoothing, periodLength, targets, keeps, i - 1) else -1.0;
      SmoothNonNegative(targets[i], previous, smoothing, periodLength);
      Smooth(targets[i], previous, Factor(smoothing, periodLength))
  }

  predicate NonNegative(xs: seq<real>)
  {
    forall k :: 0 <= k < |xs| ==> xs[k] >= 0.0
  }

  lemma {:induction false} MeanNonNegative(xs: seq<real>)
    requires |xs| > 0
    ensures NonNegative(xs) ==> Average(Sum(xs), |xs|) >= 0.0
  {
    if NonNegative(xs) {
      SumNonNegative(xs);
    }
  }

  lemma {:induction false} SumNonNegative(xs: seq<real>)
    requires NonNegative(xs)
    ensures Sum(xs) >= 0.0
  {
    if xs != [] {
      SumNonNegative(xs[..|xs| - 1]);
    }
  }

  lemma SmoothNonNegative(target: real, previous: real, smoothing: int, periodLength: int)
    requires periodLength >= 1
    ensures target >= 0.0 && previous >= 0.0 && 0 <= smoothing <= periodLength + 1 ==>
      Smooth(target, previous, Factor(smoothing, periodLength)) >= 0.0
  {
    if target >= 0.0 && previous >= 0.0 && 0 <= smoothing <= periodLength + 1 {
      var sf := Factor(smoothing, periodLength);
      RatioWithinUnit(smoothing as real, (periodLength + 1) as real);
      ProductNonNegative(target, sf);
      ProductNonNegative(previous, 1.0 - sf);
    }
  }

  function EmaSeries(smoothing: int, periodLength: int, targets: seq<real>, keeps: seq<bool>): (r: seq<real>)
    requires periodLength >= 1 && |keeps| == |targets|
    ensures |r| == |targets|
  {
    seq(|targets|, i requires 0 <= i < |targets| => EmaValue(smoothing, periodLength, targets, keeps, i))
  }

  /** Below the period the series holds the running mean. */
  lemma EmaWarmup(smoothing: int, periodLength: int, targets: seq<real>, keeps: seq<bool>, i: nat, sum: real)
    requires periodLength >= 1 && i < periodLength && i < |targets| && |keeps| == |targets|
    requires sum == Sum(targets[..i + 1])
    ensures EmaSeries(smoothing, periodLength, targets, keeps)[i] == Average(sum, i + 1)
  {
  }

  /** From the period on the series follows the smoothing recurrence on the value read back at `i - 1`. */
  lemma EmaRecurrence(smoothing: int, periodLength: int, targets: seq<real>, keeps: seq<bool>, i: nat, previous: real, sf: real)
    requires periodLength >= 1 && periodLength <= i < |targets| && |keeps| == |targets|
    requires previous == if keeps[i - 1] then EmaSeries(smoothing, periodLength, targets, keeps)[i - 1] else -1.0
    requires sf == Factor(smoothing, periodLength)
    ensures EmaSeries(smoothing, periodLength, targets, keeps)[i] == Smooth(targets[i], previous, sf)
  {
  }

  function AllKept(n: nat): seq<bool>
  {
    seq(n, _ => true)
  }

  /** Cell by cell, the first series minus the second. */
  function Differences(short: seq<real>, long: seq<real>): (r: seq<real>)
    requires |short| == |long|
    ensures |r| == |short|
  {
    seq(|short|, i requires 0 <= i < |short| => short[i] - long[i])
  }

  /** MACD's value at each index: the short EMA minus the long EMA, both with smoothing 2, over buffers that keep everything. */
  function MacdSeries(shortPeriod: int, longPeriod: int, targets: seq<real>): (r: seq<real>)
    requires shortPeriod >= 1 && longPeriod >= 1
    ensures |r| == |targets|
  {
    Differences(EmaSeries(2, shortPeriod, targets, AllKept(|targets|)),
                EmaSeries(2, longPeriod, targets, AllKept(|targets|)))
  }

  /**
   * Where `setValue` and `getIndicator` go. `Window` is what
   * `CalculateIndicators` hands over: index `k` addresses row `start + k`,
   * the ticker's bar there, and values are stored under `name`, the
   * running indicator's `Name()`. `Scratch` is one of MACD's local buffers.
   */
  datatype Sink =
    | Window(rows: seq<Row>, ticker: string, start: nat, name: string)
    | Scratch(cells: seq<real>)

  /** How many indices the accessors can address. */
  function Room(s: Sink): nat
  {
    match s
    case Window(rows, _, start, _) => if start <= |rows| then |rows| - start else 0
    case Scratch(cells) => |cells|
  }

  /** Whether a value stored at `k` can be read back: a buffer keeps everything, a row only when it has the ticker's bar. */
  predicate Keeps(s: Sink, k: nat)
    requires k < Room(s)
  {
    match s
    case Window(rows, ticker, start, _) => ticker in rows[start + k].data
    case Scratch(_) => true
  }

  function KeepsAll(s: Sink, n: nat): (r: seq<bool>)
    requires n <= Room(s)
    ensures |r| == n && forall k :: 0 <= k < n ==> r[k] == Keeps(s, k)
  {
    seq(n, k requires 0 <= k < n => Keeps(s, k))
  }

  /** The row with `value` stored under `name` in `ticker`'s bar (which must be there). */
  function SetIndicator(row: Row, ticker: string, name: string, value: real): Row
    requires ticker in row.data
  {
    row.(data := row.data[ticker := Annotate(row.data[ticker], name, value)])
  }

  /** The rows with `value` stored under `name` in `ticker`'s bar at row `r`, when that row has one. */
  function StoreAt(rows: seq<Row>, ticker: string, r: nat, name: string, value: real): (out: seq<Row>)
    requires r < |rows|
    ensures |out| == |rows|
  {
    if ticker !in rows[r].data then rows else rows[r := SetIndicator(rows[r], ticker, name, value)]
  }

  /** A bar with `value` stored under `name` among its indicators. */
  function Annotate(bar: Bar, name: string, value: real): Bar
  {
    bar.(indicators := bar.indicators[name := value])
  }

  /** `getIndicator(k, key)`: -1 without a bar, 0 for a name never stored, else the stored value. */
  function GetIndicator(s: Sink, k: nat, key: string): (r: real)
    requires k < Room(s)
    ensures s.Window? && s.ticker !in s.rows[s.start + k].data ==> r == -1.0
  {
    match s
    case Window(rows, ticker, start, _) =>
      if ticker !in rows[start + k].data then -1.0
      else
        var m := rows[start + k].data[ticker].indicators;
        if key in m then m[key] else 0.0
    case Scratch(cells) => cells[k]
  }

  /** `setValue(k, v)`: nothing without a bar, else `v` stored under the indicator's name. */
  function SetValue(s: Sink, k: nat, v: real): (r: Sink)
    requires k < Room(s)
    ensures Room(r) == Room(s) && r.Window? == s.Window?
    ensures s.Window? ==> |r.rows| == |s.rows| && r.ticker == s.ticker && r.start == s.start && r.name == s.name
  {
    match s
    case Window(rows, ticker, start, name) => Window(StoreAt(rows, ticker, start + k, name, v), ticker, start, name)
    case Scratch(cells) => Scratch(cells[k := v])
  }

  /** The rows with `values[r - start]` stored under `name` in `ticker`'s bar at each row `r` of the range, when it has one. */
  function Annotated(rows: seq<Row>, ticker: string, start: nat, name: string, values: seq<real>, lo: nat, hi: nat): (out: seq<Row>)
    requires lo <= hi <= |values|
    ensures |out| == |rows|
  {
    seq(|rows|, r requires 0 <= r < |rows| =>
      if start + lo <= r < start + hi && ticker in rows[r].data then SetIndicator(rows[r], ticker, name, values[r - start]) else rows[r])
  }

  /** The cells with `values[k]` in each cell `k` of the range. */
  function Overwritten(cells: seq<real>, values: seq<real>, lo: nat, hi: nat): (out: seq<real>)
    requires lo <= hi <= |values|
    ensures |out| == |cells|
  {
    seq(|cells|, k requires 0 <= k < |cells| => if lo <= k < hi then values[k] else cells[k])
  }

  /**
   * The sink after `setValue(k, values[k])` for every `k` with
   * `lo <= k < hi`: each value in the ticker's bar of its row when the row
   * has one, or in its cell of the buffer. `EmitStep` shows that the calls,
   * made one after the other in ascending order, arrive here.
   */
  function Emit(s: Sink, values: seq<real>, lo: nat, hi: nat): (r: Sink)
    requires lo <= hi <= |values| <= Room(s)
  {
    match s
    case Window(rows, ticker, start, name) => Window(Annotated(rows, ticker, start, name, values, lo, hi), ticker, start, name)
    case Scratch(cells) => Scratch(Overwritten(cells, values, lo, hi))
  }

  /** Storing nothing leaves the sink as it is. */
  lemma EmitNothing(s: Sink, values: seq<real>, lo: nat)
    requires lo <= |values| <= Room(s)
    ensures Emit(s, values, lo, lo) == s
  {
    match s
    case Window(rows, ticker, start, name) =>
      assert Annotated(rows, ticker, start, name, values, lo, lo) == rows;
    case Scratch(cells) =>
      assert Overwritten(cells, values, lo, lo) == cells;
  }

  /** One more `setValue`, at the next index, with the next value, stores one more value. */
  lemma EmitStep(s: Sink, values: seq<real>, lo: nat, i: nat, v: real)
    requires lo <= i < |values| <= Room(s) && v == values[i]
    ensures SetValue(Emit(s, values, lo, i), i, v) == Emit(s, values, lo, i + 1)
  {
    match s
    case Window(rows, ticker, start, name) =>
      AnnotatedStep(rows, ticker, start, name, values, lo, i + 1);
    case Scratch(cells) =>
      assert Overwritten(cells, values, lo, i)[i := v] == Overwritten(cells, values, lo, i + 1);
  }

  /** Storing one more value touches one more row, and only when it has the ticker's bar. */
  lemma AnnotatedStep(rows: seq<Row>, ticker: string, start: nat, name: string, values: seq<real>, lo: nat, hi: nat)
    requires lo < hi <= |values| && start + hi <= |rows|
    ensures Annotated(rows, ticker, start, name, values, lo, hi)
      == StoreAt(Annotated(rows, ticker, start, name, values, lo, hi - 1), ticker, start + hi - 1, name, values[hi - 1])
  {
    var prev := Annotated(rows, ticker, start, name, values, lo, hi - 1);
    var out := Annotated(rows, ticker, start, name, values, lo, hi);
    var r := start + hi - 1;
    assert prev[r] == rows[r];
    if ticker in rows[r].data {
      assert out == prev[r := SetIndicator(rows[r], ticker, name, values[hi - 1])];
    } else {
      assert out == prev;
    }
  }

  /** `Emit` leaves what each index keeps alone, and a read at `k` sees the last value stored there. */
  lemma EmitRead(s: Sink, values: seq<real>, lo: nat, hi: nat, k: nat, key: string)
    requires lo <= hi <= |values| <= Room(s) && k < Room(s)
    requires s.Window? ==> s.name == key
    ensures Keeps(Emit(s, values, lo, hi), k) == Keeps(s, k)
    ensures GetIndicator(Emit(s, values, lo, hi), k, key)
      == if lo <= k < hi then (if Keeps(s, k) then values[k] else -1.0) else GetIndicator(s, k, key)
  {
    match s
    case Window(rows, ticker, start, _) =>
      var r := start + k;
      if lo <= k < hi && ticker in rows[r].data {
        SetIndicatorRead(rows[r], ticker, key, values[k]);
      }
    case Scratch(cells) =>
  }

  /** The value just stored under `name` in `ticker`'s bar is the one read back there. */
  lemma SetIndicatorRead(row: Row, ticker: string, name: string, value: real)
    requires ticker in row.data
    ensures var r := SetIndicator(row, ticker, name, value);
      ticker in r.data && name in r.data[ticker].indicators && r.data[ticker].indicators[name] == value
  {
  }

  /** What `getIndicator` reads back at `k` once the values are stored. */
  lemma EmitReadBack(s: Sink, values: seq<real>, hi: nat, k: nat, key: string, out: Sink)
    requires k < hi <= |values| <= Room(s)
    requires s.Window? ==> s.name == key
    requires out == Emit(s, values, 0, hi)
    ensures k < Room(out) && GetIndicator(out, k, key) == if Keeps(s, k) then values[k] else -1.0
  {
    EmitRead(s, values, 0, hi, k, key);
  }

  /** A buffer filled from its first cell to its last holds exactly the values stored. */
  lemma EmitFills(s: Sink, values: seq<real>)
    requires s.Scratch? && |s.cells| == |values|
    ensures Emit(s, values, 0, |values|) == Scratch(values)
  {
    assert Overwritten(s.cells, values, 0, |values|) == values;
  }

  /**
   * `EMA.Apply` over `targets`, the prices `getTarget` returns (which no
   * `setValue` changes): a running sum for the first `periodLength` values,
   * then the smoothing recurrence on the value read back at the previous index.
   */
  method ApplyEMA(ema: Indicator, targets: seq<real>, sink: Sink) returns (out: Sink)
    requires ema.EMA? && ema.periodLength >= 1
    requires |targets| <= Room(sink)
    requires sink.Window? ==> sink.name == Name(ema)
    ensures out == Emit(sink, EmaSeries(ema.smoothing, ema.periodLength, targets, KeepsAll(sink, |targets|)), 0, |targets|)
  {
    var name := Name(ema);
    var sf := ema.smoothing as real / (ema.periodLength + 1) as real;
    assert sf == Factor(ema.smoothing, ema.periodLength);
    ghost var series := EmaSeries(ema.smoothing, ema.periodLength, targets, KeepsAll(sink, |targets|));
    var sum := 0.0;
    out := sink;
    for i := 0 to |targets|
      invariant out == Emit(sink, series, 0, i)
      invariant sum == Sum(targets[..if i < ema.periodLength then i else ema.periodLength])
    {
      var v: real;
      if i < ema.periodLength {
        SumPrefix(targets, i);
        sum := sum + targets[i];
        EmaWarmup(ema.smoothing, ema.periodLength, targets, KeepsAll(sink, |targets|), i, sum);
        v := Average(sum, i + 1);
      } else {
        EmaSmoothStep(ema, name, targets, sink, out, i, sf);
        var previous := GetIndicator(out, i - 1, name);
        v := Smooth(targets[i], previous, sf);
      }
      EmitStep(sink, series, 0, i, v);
      out := SetValue(out, i, v);
    }
  }

  /** The value stored at `i >= periodLength`: the recurrence on the value `getIndicator` reads back at `i - 1`. */
  lemma EmaSmoothStep(ema: Indicator, name: string, targets: seq<real>, sink: Sink, out: Sink, i: nat, sf: real)
    requires ema.EMA? && 1 <= ema.periodLength <= i < |targets| <= Room(sink)
    requires sink.Window? ==> sink.name == name
    requires sf == Factor(ema.smoothing, ema.periodLength)
    requires out == Emit(sink, EmaSeries(ema.smoothing, ema.periodLength, targets, KeepsAll(sink, |targets|)), 0, i)
    ensures i - 1 < Room(out)
    ensures EmaSeries(ema.smoothing, ema.periodLength, targets, KeepsAll(sink, |targets|))[i]
      == Smooth(targets[i], GetIndicator(out, i - 1, name), sf)
  {
    var keeps := KeepsAll(sink, |targets|);
    var series := EmaSeries(ema.smoothing, ema.periodLength, targets, keeps);
    EmitReadBack(sink, series, i, i - 1, name, out);
    var previous := GetIndicator(out, i - 1, name);
    assert keeps[i - 1] == Keeps(sink, i - 1);
    assert previous == if keeps[i - 1] then series[i - 1] else -1.0;
    EmaRecurrence(ema.smoothing, ema.periodLength, targets, keeps, i, previous, sf);
  }

  /** What `MACD.Apply` ends in: a panic, or the sink after its `setValue` calls. */
  datatype Applied = Panic | Applied(sink: Sink)

  /**
   * An EMA with smoothing 2 applied to a zeroed buffer of `|targets|` cells,
   * as `MACD.Apply` does for each of its two averages: the buffer ends up
   * holding the EMA series, every cell counting as present.
   */
  method EmaBuffer(periodLength: int, targets: seq<real>) returns (cells: seq<real>)
    requires periodLength >= 1
    ensures cells == EmaSeries(2, periodLength, targets, AllKept(|targets|))
  {
    var n := |targets|;
    var buffer := Scratch(seq(n, _ => 0.0));
    var out := ApplyEMA(EMA(2, periodLength), targets, buffer);
    assert KeepsAll(buffer, n) == AllKept(n);
    EmitFills(buffer, EmaSeries(2, periodLength, targets, AllKept(n)));
    cells := out.cells;
  }

  /**
   * The last loop of `MACD.Apply`: from index `from` on, `setValue` gets the
   * short average minus the long one.
   */
  method EmitDifferences(sink: Sink, short: seq<real>, long: seq<real>, from: nat) returns (out: Sink)
    requires |short| == |long| <= Room(sink)
    ensures out == Emit(sink, Differences(short, long), if from < |short| then from else |short|, |short|)
  {
    var n := |short|;
    ghost var values := Differences(short, long);
    var lo := if from < n then from else n;
    out := sink;
    for i := lo to n
      invariant out == Emit(sink, values, lo, i)
    {
      out := EmitOne(sink, values, lo, i, out, short[i] - long[i]);
    }
  }

  /** One turn of a loop of `setValue` calls: store `v`, the next value, at `i`. */
  method EmitOne(sink: Sink, ghost values: seq<real>, ghost lo: nat, i: nat, out: Sink, v: real) returns (next: Sink)
    requires lo <= i < |values| <= Room(sink) && out == Emit(sink, values, lo, i) && v == values[i]
    ensures next == Emit(sink, values, lo, i + 1)
  {
    EmitStep(sink, values, lo, i, v);
    next := SetValue(out, i, v);
  }

  /**
   * `MACD.Apply`: panic unless the short period is below the long one; run
   * both EMAs into local buffers; then store their difference at every index
   * from the long period on.
   */
  method ApplyMACD(macd: Indicator, targets: seq<real>, sink: Sink) returns (r: Applied)
    requires macd.MACD? && (macd.shortPeriod < macd.longPeriod ==> macd.shortPeriod >= 1)
    requires |targets| <= Room(sink)
    ensures r.Panic? <==> macd.shortPeriod >= macd.longPeriod
    ensures r.Applied? ==>
      r.sink == Emit(sink, MacdSeries(macd.shortPeriod, macd.longPeriod, targets),
                     if macd.longPeriod < |targets| then macd.longPeriod else |targets|, |targets|)
  {
    if macd.shortPeriod >= macd.longPeriod {
      return Panic;
    }
    var short := EmaBuffer(macd.shortPeriod, targets);
    var long := EmaBuffer(macd.longPeriod, targets);
    var out := EmitDifferences(sink, short, long, macd.longPeriod);
    return Applied(out);
  }

  /** The three prices 10, 20, 30 with period 3 give the running means 10, 15, 20. */
  lemma EmaWarmupExample()
    ensures EmaSeries(2, 3, [10.0, 20.0, 30.0], AllKept(3)) == [10.0, 15.0, 20.0]
  {
    var t := [10.0, 20.0, 30.0];
    assert t[..1] == [10.0] && t[..2] == [10.0, 20.0] && t[..3] == t;
    assert [10.0, 20.0][..1] == [10.0] && [10.0][..0] == [];
    assert Sum(t[..1]) == 10.0 && Sum(t[..2]) == 30.0 && Sum(t[..3]) == 60.0;
    EmaWarmup(2, 3, t, AllKept(3), 0, 10.0);
    EmaWarmup(2, 3, t, AllKept(3), 1, 30.0);
    EmaWarmup(2, 3, t, AllKept(3), 2, 60.0);
  }

  lemma {:induction false} SumConstant(xs: seq<real>, c: real)
    requires forall k :: 0 <= k < |xs| ==> xs[k] == c
    ensures Sum(xs) == |xs| as real * c
  {
    if xs != [] {
      SumConstant(xs[..|xs| - 1], c);
    }
  }

  /** On a constant price the EMA is that price at every index, when every value is read back. */
  lemma {:induction false} EmaOfConstant(smoothing: int, periodLength: int, targets: seq<real>, c: real, i: nat)
    requires periodLength >= 1 && i < |targets|
    requires forall k :: 0 <= k < |targets| ==> targets[k] == c
    ensures EmaValue(smoothing, periodLength, targets, AllKept(|targets|), i) == c
    decreases i
  {
    var keeps := AllKept(|targets|);
    if i < periodLength {
      SumConstant(targets[..i + 1], c);
      MeanOfConstant(i + 1, c);
      assert EmaValue(smoothing, periodLength, targets, keeps, i) == Average(Sum(targets[..i + 1]), i + 1);
    } else {
      EmaOfConstant(smoothing, periodLength, targets, c, i - 1);
      assert keeps[i - 1];
      var sf := Factor(smoothing, periodLength);
      SmoothFixed(c, sf);
      assert EmaValue(smoothing, periodLength, targets, keeps, i) == Smooth(targets[i], c, sf);
    }
  }

  lemma {:induction false} SumBounds(xs: seq<real>, lo: real, hi: real)
    requires forall k :: 0 <= k < |xs| ==> lo <= xs[k] <= hi
    ensures |xs| as real * lo <= Sum(xs) <= |xs| as real * hi
  {
    if xs != [] {
      SumBounds(xs[..|xs| - 1], lo, hi);
    }
  }

  lemma MeanBounds(total: real, n: nat, lo: real, hi: real)
    requires n > 0 && n as real * lo <= total <= n as real * hi
    ensures lo <= Average(total, n) <= hi
  {
    var m := n as real;
    assert total / m >= lo by {
      assert total / m - lo == (total - m * lo) / m;
    }
    assert total / m <= hi by {
      assert hi - total / m == (m * hi - total) / m;
    }
  }

  lemma RatioWithinUnit(a: real, d: real)
    requires 0.0 <= a <= d && d > 0.0
    ensures 0.0 <= a / d <= 1.0
  {
    assert a / d * d == a;
  }

  lemma ProductNonNegative(a: real, b: real)
    requires a >= 0.0 && b >= 0.0
    ensures a * b >= 0.0
  {
  }

  lemma SmoothBounds(target: real, previous: real, sf: real, lo: real, hi: real)
    requires 0.0 <= sf <= 1.0 && lo <= target <= hi && lo <= previous <= hi
    ensures lo <= Smooth(target, previous, sf) <= hi
  {
    var rest := 1.0 - sf;
    ProductNonNegative(target - lo, sf);
    ProductNonNegative(previous - lo, rest);
    ProductNonNegative(hi - target, sf);
    ProductNonNegative(hi - previous, rest);
    assert Smooth(target, previous, sf) - lo == (target - lo) * sf + (previous - lo) * rest;
    assert hi - Smooth(target, previous, sf) == (hi - target) * sf + (hi - previous) * rest;
  }

  /**
   * With every value read back and a factor between 0 and 1, each EMA value
   * lies within the range of the prices: the warm-up mean of the first
   * prices, and each smoothing step after it.
   */
  lemma {:induction false} EmaWithinPrices(smoothing: int, periodLength: int, targets: seq<real>, lo: real, hi: real, i: nat)
    requires periodLength >= 1 && 0 <= smoothing <= periodLength + 1 && i < |targets|
    requires forall k :: 0 <= k < |targets| ==> lo <= targets[k] <= hi
    ensures lo <= EmaValue(smoothing, periodLength, targets, AllKept(|targets|), i) <= hi
    decreases i
  {
    if i < periodLength {
      SumBounds(targets[..i + 1], lo, hi);
      MeanBounds(Sum(targets[..i + 1]), i + 1, lo, hi);
    } else {
      EmaWithinPrices(smoothing, periodLength, targets, lo, hi, i - 1);
      assert AllKept(|targets|)[i - 1];
      var sf := Factor(smoothing, periodLength);
      RatioWithinUnit(smoothing as real, (periodLength + 1) as real);
      SmoothBounds(targets[i], EmaValue(smoothing, periodLength, targets, AllKept(|targets|), i - 1), sf, lo, hi);
    }
  }

  lemma MeanOfConstant(n: nat, c: real)
    requires n > 0
    ensures Average(n as real * c, n) == c
  {
  }

  lemma SmoothFixed(c: real, sf: real)
    ensures Smooth(c, c, sf) == c
  {
  }

  /** On a constant price MACD is zero everywhere. */
  lemma MacdOfConstant(shortPeriod: int, longPeriod: int, targets: seq<real>, c: real)
    requires shortPeriod >= 1 && longPeriod >= 1
    requires forall k :: 0 <= k < |targets| ==> targets[k] == c
    ensures forall k :: 0 <= k < |targets| ==> MacdSeries(shortPeriod, longPeriod, targets)[k] == 0.0
  {
    forall k | 0 <= k < |targets|
      ensures MacdSeries(shortPeriod, longPeriod, targets)[k] == 0.0
    {
      EmaOfConstant(2, shortPeriod, targets, c, k);
      EmaOfConstant(2, longPeriod, targets, c, k);
    }
  }

  /** The indicators `CalculateIndicators` can run: an EMA needs a positive period, so does the short EMA of a MACD that does not panic. */
  predicate Supported(ind: Indicator)
  {
    match ind
    case EMA(_, periodLength) => periodLength >= 1
    case MACD(shortPeriod, longPeriod) => shortPeriod < longPeriod ==> shortPeriod >= 1
  }

  /** What one `Apply` does to the sink. */
  function Effect(ind: Indicator, targets: seq<real>, sink: Sink): (r: Applied)
    requires Supported(ind) && |targets| <= Room(sink)
  {
    match ind
    case EMA(smoothing, periodLength) =>
      Applied(Emit(sink, EmaSeries(smoothing, periodLength, targets, KeepsAll(sink, |targets|)), 0, |targets|))
    case MACD(shortPeriod, longPeriod) =>
      if shortPeriod >= longPeriod then Panic
      else Applied(Emit(sink, MacdSeries(shortPeriod, longPeriod, targets),
                        if longPeriod < |targets| then longPeriod else |targets|, |targets|))
  }

  /** `indicator.Apply`: the call through the `Indicator` interface. */
  method Apply(ind: Indicator, targets: seq<real>, sink: Sink) returns (r: Applied)
    requires Supported(ind) && |targets| <= Room(sink)
    requires sink.Window? ==> sink.name == Name(ind)
    ensures r == Effect(ind, targets, sink)
  {
    match ind
    case EMA(_, _) =>
      var out := ApplyEMA(ind, targets, sink);
      r := Applied(out);
    case MACD(_, _) =>
      r := ApplyMACD(ind, targets, sink);
  }
}
