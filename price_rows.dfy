/** The per-security logic of the daily price update that works on values:
    where to resume fetching, whether to fetch at all, which fetched bars are
    kept, and the rows that are handed to the insert. */
module PriceRows {
  import opened Wrappers
  import opened Dates
  import opened Masks

  /** A row of `securities_master`. */
  datatype Security = Security(id: int, ticker: string)

  /** One daily bar as the price provider returns it (after auto-adjustment).
      Prices are exact reals; floating point is not modelled. */
  datatype Bar = Bar(date: CalendarDate, open: real, high: real, low: real, close: real, volume: int)

  /** A row of `daily_prices`. */
  datatype PriceRow = PriceRow(
    securityId: int, priceDate: CalendarDate,
    open: real, high: real, low: real, close: real, volume: int)

  /** The natural key `(security_id, price_date)`. */
  type Key = (int, CalendarDate)

  function KeyOf(r: PriceRow): Key {
    (r.securityId, r.priceDate)
  }

  /** The backfill floor used for a security that has no stored rows. */
  const Floor: CalendarDate := Date(2002, 1, 1)

  /** Where fetching resumes, given the security's latest stored date
      (`MAX(price_date)`, `None` when it has no rows). `None` as a result is
      the OverflowError of stepping past the last representable date. */
  function StartDate(watermark: Option<CalendarDate>): (r: Option<CalendarDate>)
    ensures watermark.None? ==> r == Some(Floor)
    ensures watermark.Some? && watermark.value != LastDate ==>
      r.Some? && Before(watermark.value, r.value) &&
      forall e: Date :: IsValid(e) && Before(watermark.value, e) ==> !Before(e, r.value)
    ensures watermark == Some(LastDate) ==> r.None?
  {
    match watermark
    case None => Some(Floor)
    case Some(last) => NextDay(last)
  }

  /** Line 45: the security is already current, and nothing is fetched,
      when the start date is not before today as `YYYY-MM-DD` text. */
  predicate ShouldSkip(start: CalendarDate, today: CalendarDate) {
    !StrLess(Format(start), Format(today))
  }

  /** The text test is the chronological one: skip exactly when today is on
      or before the start date. */
  lemma ShouldSkipIsChronological(start: CalendarDate, today: CalendarDate)
    ensures ShouldSkip(start, today) <==> !Before(start, today)
  {
    FormatOrder(start, today);
  }

  /** A security whose stored data already reaches today (or later) is
      skipped: the day after its watermark is not before today. */
  lemma CurrentIsSkipped(last: CalendarDate, today: CalendarDate)
    requires !Before(last, today) && last != LastDate
    ensures StartDate(Some(last)).Some? && ShouldSkip(StartDate(Some(last)).value, today)
  {
    ShouldSkipIsChronological(StartDate(Some(last)).value, today);
  }

  /** Line 53: `Close > 0`. */
  predicate PositiveClose(b: Bar) {
    b.close > 0.0
  }

  /** Line 54: `High >= Open` and `High >= Close`. `Low` is not examined. */
  predicate ConsistentHigh(b: Bar) {
    b.high >= b.open && b.high >= b.close
  }

  /** The condition a bar must meet to be stored. */
  predicate KeepBar(b: Bar) {
    b.close > 0.0 && b.high >= b.open && b.high >= b.close
  }

  /** Lines 53-54: the two successive mask filters. */
  function FilterBars(bars: seq<Bar>): seq<Bar> {
    Filter(Filter(bars, PositiveClose), ConsistentHigh)
  }

  /** The two filters keep a bar exactly when it meets all three conditions,
      keep the survivors in their original order, and drop nothing else:
      the result is `bars` read at the ascending positions where `KeepBar`
      holds. */
  lemma FilterBarsSpec(bars: seq<Bar>)
    ensures var idx := Kept(MaskOf(bars, KeepBar));
      && FilterBars(bars) == Filter(bars, KeepBar)
      && |FilterBars(bars)| == |idx|
      && (forall j :: 0 <= j < |idx| ==> idx[j] < |bars| && FilterBars(bars)[j] == bars[idx[j]])
      && (forall j, k :: 0 <= j < k < |idx| ==> idx[j] < idx[k])
      && (forall i :: 0 <= i < |bars| ==> (KeepBar(bars[i]) <==> i in idx))
  {
    FilterTwice(bars, PositiveClose, ConsistentHigh, KeepBar);
    FilterSpec(bars, KeepBar);
  }

  /** Every kept bar meets all three conditions, and every fetched bar that
      meets them is kept. */
  lemma FilterBarsMembers(bars: seq<Bar>)
    ensures forall b :: b in FilterBars(bars) <==> b in bars && KeepBar(b)
  {
    FilterTwice(bars, PositiveClose, ConsistentHigh, KeepBar);
    assert FilterBars(bars) == Filter(bars, KeepBar);
    FilterMembers(bars, KeepBar);
  }

  /** Replacing the `low` of every bar changes nothing about which bars are
      kept: the filter never reads it. */
  lemma {:induction false} FilterIgnoresLow(bars: seq<Bar>, lows: seq<real>)
    requires |lows| == |bars|
    ensures var relowed := seq(|bars|, i requires 0 <= i < |bars| => bars[i].(low := lows[i]));
      |FilterBars(relowed)| == |FilterBars(bars)| &&
      forall j :: 0 <= j < |FilterBars(bars)| ==>
        FilterBars(relowed)[j] == FilterBars(bars)[j].(low := FilterBars(relowed)[j].low) &&
        FilterBars(relowed)[j].date == FilterBars(bars)[j].date
  {
    var relowed := seq(|bars|, i requires 0 <= i < |bars| => bars[i].(low := lows[i]));
    FilterBarsSpec(bars);
    FilterBarsSpec(relowed);
    assert MaskOf(relowed, KeepBar) == MaskOf(bars, KeepBar);
  }

  /** Lines 56-61: a bar becomes a row of `daily_prices` for `id`. */
  function ToRow(b: Bar, id: int): (r: PriceRow) {
    PriceRow(id, b.date, b.open, b.high, b.low, b.close, b.volume)
  }

  /** The bar a row came from, given back. */
  function BarOf(r: PriceRow): (b: Bar) {
    Bar(r.priceDate, r.open, r.high, r.low, r.close, r.volume)
  }

  lemma BarOfToRow(b: Bar, id: int)
    ensures BarOf(ToRow(b, id)) == b && ToRow(b, id).securityId == id
  {
  }

  /** Lines 53-61: the rows `executemany` receives for one fetched batch. */
  function Batch(bars: seq<Bar>, id: int): (rows: seq<PriceRow>) {
    var kept := FilterBars(bars);
    seq(|kept|, j requires 0 <= j < |kept| => ToRow(kept[j], id))
  }

  /** Every row handed to the insert carries the current security id, and
      the rest of it is, unchanged, the kept bar at the same position. */
  lemma BatchAt(bars: seq<Bar>, id: int)
    ensures var rows := Batch(bars, id);
      && |rows| == |FilterBars(bars)|
      && forall j :: 0 <= j < |rows| ==> rows[j].securityId == id && BarOf(rows[j]) == FilterBars(bars)[j]
  {
    var kept := FilterBars(bars);
    forall j | 0 <= j < |kept| ensures BarOf(Batch(bars, id)[j]) == kept[j] {
      BarOfToRow(kept[j], id);
    }
  }

  /** Each batch row is a fetched bar that passed the filter, tagged with
      `id`. */
  lemma BatchSound(bars: seq<Bar>, id: int)
    ensures forall r :: r in Batch(bars, id) ==> r.securityId == id && BarOf(r) in bars && KeepBar(BarOf(r))
  {
    var rows := Batch(bars, id);
    var kept := FilterBars(bars);
    BatchAt(bars, id);
    FilterBarsMembers(bars);
    forall r | r in rows ensures r.securityId == id && BarOf(r) in bars && KeepBar(BarOf(r)) {
      var j :| 0 <= j < |rows| && rows[j] == r;
      assert BarOf(r) == kept[j] && kept[j] in kept;
    }
  }

  /** Each fetched bar that passes the filter is in the batch, tagged with
      `id`. */
  lemma BatchComplete(bars: seq<Bar>, id: int)
    ensures forall b :: b in bars && KeepBar(b) ==> ToRow(b, id) in Batch(bars, id)
  {
    var rows := Batch(bars, id);
    var kept := FilterBars(bars);
    assert forall j :: 0 <= j < |kept| ==> rows[j] == ToRow(kept[j], id);
    FilterBarsMembers(bars);
    forall b | b in bars && KeepBar(b) ensures ToRow(b, id) in rows {
      var j :| 0 <= j < |kept| && kept[j] == b;
      assert rows[j] == ToRow(b, id);
    }
  }
}
