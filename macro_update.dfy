/** The macro update: fetch every configured series, join them on one date
    index, forward-fill, derive the growth rates and the yield spread, drop
    the raw levels and the incomplete rows, and replace the stored table with
    the result. */
module MacroUpdate {
  import opened Wrappers
  import opened Dates
  import opened Masks
  import opened MacroFrame
  import opened MacroDerive

  /** Local column name and provider series id, in the order the series are
      fetched (the dictionary on update_database.py lines 11-18). */
  const FredSeriesMap: seq<(string, string)> := [
    ("btp_10y_yield", "IRLTLT01ITM156N"), ("bund_10y_yield", "IRLTLT01DEM156N"),
    ("eu_inflation_index", "CP0000EZ19M086NEST"), ("eu_gdp_value", "CLVMEURSCAB1GQEA19"),
    ("ecb_deposit_rate", "ECBDFR"), ("eu_pmi_manufacturing", "BSCICP02EZM460S"),
    ("brent_oil_price", "DCOILBRENTEU"), ("eur_usd_exchange_rate", "DEXUSEU"),
    ("vix_close", "VIXCLS"), ("it_inflation_index", "CP0000ITM086NEST"),
    ("it_gdp_value", "CLVMNACSCAB1GQIT"), ("it_pmi_manufacturing", "BSCICP02ITM460S")
  ]

  /** Each growth column with the level column it is computed from. */
  const Growth: seq<(string, string)> := [
    ("eu_inflation_rate", "eu_inflation_index"), ("it_inflation_rate", "it_inflation_index"),
    ("eu_gdp_growth", "eu_gdp_value"), ("it_gdp_growth", "it_gdp_value")
  ]

  /** The two yields whose difference is the spread, and the spread. */
  const BtpName := "btp_10y_yield"
  const BundName := "bund_10y_yield"
  const SpreadName := "btp_bund_spread"

  /** The columns the derivation adds. */
  const DerivedNames: seq<string> :=
    ["eu_inflation_rate", "it_inflation_rate", "eu_gdp_growth", "it_gdp_growth", "btp_bund_spread"]

  /** Line 101. */
  const ColumnsToDrop: seq<string> :=
    ["eu_inflation_index", "it_inflation_index", "eu_gdp_value", "it_gdp_value", "bund_10y_yield"]

  /** The columns the update writes: the configured ones that are kept,
      then the derived ones. */
  const OutputNames: seq<string> := [
    "btp_10y_yield", "ecb_deposit_rate", "eu_pmi_manufacturing", "brent_oil_price",
    "eur_usd_exchange_rate", "vix_close", "it_pmi_manufacturing",
    "eu_inflation_rate", "it_inflation_rate", "eu_gdp_growth", "it_gdp_growth", "btp_bund_spread"
  ]

  /** The configured column names, in the order of the map. */
  function ConfiguredNames(): seq<string> {
    seq(|FredSeriesMap|, k requires 0 <= k < |FredSeriesMap| => FredSeriesMap[k].0)
  }

  /** No two configured series share a column name. */
  lemma ConfiguredNamesDistinct()
    ensures forall j, k :: 0 <= j < k < |FredSeriesMap| ==> FredSeriesMap[j].0 != FredSeriesMap[k].0
  {
  }

  /** Lines 94-98: the four growth rates, then the yield spread. */
  function Derive(f: Frame): (r: Option<Frame>)
    ensures r.Some? ==> r.value.indexName == f.indexName && r.value.index == f.index
    ensures r.Some? && Rectangular(f) ==> Rectangular(r.value)
  {
    DeriveWith(f, Growth, BtpName, BundName, SpreadName)
  }

  /** Lines 90-92: joined, sorted and forward-filled. */
  function Filled(series: seq<Series>): (f: Frame)
    ensures Rectangular(f) && Ascending(f.index) && |f.columns| == |series|
  {
    FillFrame(Align(series))
  }

  /** Lines 94-101: the frame just before `dropna`. */
  function Prepared(series: seq<Series>): (r: Option<Frame>)
    ensures r.Some? ==> Rectangular(r.value) && r.value.index == Filled(series).index
    ensures r.Some? ==> r.value.indexName == JoinedName(series)
  {
    var derived :- Derive(Filled(series));
    DropColumns(derived, ColumnsToDrop)
  }

  /** Lines 90-102: the frame the update stores. */
  function BuildMacroFrame(series: seq<Series>): (r: Option<Frame>)
    ensures r.Some? ==> Rectangular(r.value) && r.value.indexName == JoinedName(series)
  {
    var prepared :- Prepared(series);
    Some(DropNa(prepared))
  }

  /** The rows of the forward-filled frame that survive `dropna`. */
  function SurvivingRows(series: seq<Series>): seq<nat> {
    match Prepared(series)
    case Some(prepared) => Kept(RowMask(prepared))
    case None => []
  }

  /** The series handed to the join carry the configured names, in order. */
  ghost predicate Configured(series: seq<Series>) {
    |series| == |FredSeriesMap| && forall k :: 0 <= k < |series| ==> series[k].name == FredSeriesMap[k].0
  }

  /** The joined and filled frame of the configured series is well formed
      and has a column exactly for each configured name. */
  lemma FilledSpec(series: seq<Series>)
    requires Configured(series)
    ensures var f := Filled(series);
      && WellFormed(f)
      && (forall n :: Get(f, n).Some? <==> n in ConfiguredNames())
      && (forall k :: 0 <= k < |series| ==> Get(f, series[k].name) == Some(f.columns[k].cells))
      && (forall k :: 0 <= k < |series| ==> f.columns[k].cells == ForwardFill(Align(series).columns[k].cells))
  {
    ConfiguredNamesDistinct();
    var a := Align(series);
    assert DistinctNames(a.columns);
    FillFrameSpec(a);
    var f := Filled(series);
    var names := ConfiguredNames();
    assert forall k :: 0 <= k < |series| ==> f.columns[k].name == names[k];
    forall n ensures Get(f, n).Some? <==> n in names {
      GetSpec(f, n);
      if n in names {
        var k :| 0 <= k < |names| && names[k] == n;
        assert f.columns[k].name == n;
      }
    }
    forall k | 0 <= k < |series| ensures Get(f, series[k].name) == Some(f.columns[k].cells) {
      GetSpec(f, series[k].name);
    }
  }

  // ---------------------------------------------------------------------
  // The configured names.

  /** The equal-length names that are told apart by a single character. */
  lemma NamesDiffer()
    ensures "eu_inflation_rate" != "it_inflation_rate" && "eu_gdp_growth" != "it_gdp_growth"
    ensures "btp_10y_yield" != "eu_gdp_growth" && "btp_10y_yield" != "it_gdp_growth"
    ensures "eu_inflation_index" != "it_inflation_index" && "eu_gdp_value" != "it_gdp_value"
  {
    assert "eu_inflation_rate"[0] != "it_inflation_rate"[0];
    assert "eu_gdp_growth"[0] != "it_gdp_growth"[0];
    assert "btp_10y_yield"[0] != "eu_gdp_growth"[0] && "btp_10y_yield"[0] != "it_gdp_growth"[0];
    assert "eu_inflation_index"[0] != "it_inflation_index"[0] && "eu_gdp_value"[0] != "it_gdp_value"[0];
  }

  /** The columns the configured growth steps write. */
  lemma WrittenGrowth()
    ensures Written(Growth) == ["eu_inflation_rate", "it_inflation_rate", "eu_gdp_growth", "it_gdp_growth"]
  {
    assert Growth[..3][..2][..1] == [Growth[0]];
    assert Growth[..3][..2] == Growth[..2];
    assert Growth[..3] == Growth[..|Growth| - 1];
  }

  /** The configured growth steps write the first four derived columns, the
      spread is the fifth, and the names meet what the derivation needs. */
  lemma DerivedNamesSplit()
    ensures Written(Growth) + [SpreadName] == DerivedNames
    ensures DeriveNamesOk(Growth, BtpName, BundName, SpreadName)
  {
    WrittenGrowth();
    NamesDiffer();
    var w := Written(Growth);
    assert "eu_inflation_index" !in w && "it_inflation_index" !in w;
    assert "eu_gdp_value" !in w && "it_gdp_value" !in w;
    assert BtpName !in w && BundName !in w && SpreadName !in w;
    forall j, k | 0 <= j < |Growth| && 0 <= k < |Growth| ensures Growth[j].1 != Growth[k].0 {
      assert Growth[k].0 == w[k];
      assert j == 0 || j == 1 || j == 2 || j == 3;
    }
    forall j, k | 0 <= j < k < |Growth| ensures Growth[j].0 != Growth[k].0 {
      assert Growth[j].0 == w[j] && Growth[k].0 == w[k];
      assert w[0] != w[1] && w[0] != w[2] && w[0] != w[3];
      assert w[1] != w[2] && w[1] != w[3] && w[2] != w[3];
    }
  }

  /** Each growth step and the spread write a derived column. */
  lemma GrowthDerived()
    ensures forall k :: 0 <= k < |Growth| ==> Growth[k].0 in DerivedNames
    ensures SpreadName in DerivedNames
  {
    assert DerivedNames == [Growth[0].0, Growth[1].0, Growth[2].0, Growth[3].0, SpreadName];
  }

  /** No output column is called like the column `reset_index` makes. */
  lemma OutputNamesPlain()
    ensures "index" !in OutputNames && "level_0" !in OutputNames && "data_date" !in OutputNames
  {
  }

  /** The dropped columns are the four level columns and the German yield;
      none of them is derived. */
  lemma DroppedNames()
    ensures ColumnsToDrop == [Growth[0].1, Growth[1].1, Growth[2].1, Growth[3].1, BundName]
    ensures forall n :: n in ColumnsToDrop ==> n !in DerivedNames
    ensures forall n :: n in DerivedNames ==> n !in ColumnsToDrop
    ensures BtpName !in ColumnsToDrop && BtpName !in DerivedNames
  {
    NamesDiffer();
  }

  /** The six columns the derivation reads are configured. */
  lemma InputsConfigured()
    ensures forall k :: 0 <= k < |Growth| ==> Growth[k].1 in ConfiguredNames()
    ensures BtpName in ConfiguredNames() && BundName in ConfiguredNames()
  {
    var names := ConfiguredNames();
    assert names[0] == BtpName && names[1] == BundName;
    assert names[2] == Growth[0].1 && names[3] == Growth[2].1;
    assert names[9] == Growth[1].1 && names[10] == Growth[3].1;
  }

  // ---------------------------------------------------------------------
  // The update's frame.

  /** The frame has the six columns the derivation reads. */
  ghost predicate HasDeriveInputs(f: Frame) {
    ReadsPresent(f, Growth) && Get(f, BtpName).Some? && Get(f, BundName).Some?
  }

  /** With the six inputs present, the derivation succeeds; each growth
      column is the lagged percent change of its level column, the spread is
      the difference of the two yields, and every other column is untouched. */
  lemma DeriveSpec(f: Frame)
    requires WellFormed(f) && HasDeriveInputs(f)
    ensures Derive(f).Some?
    ensures var d := Derive(f).value;
      && WellFormed(d) && d.index == f.index
      && (forall k :: 0 <= k < |Growth| ==> Get(d, Growth[k].0) == Some(PctChange(Get(f, Growth[k].1).value, Periods)))
      && Get(d, SpreadName) == Some(Spread(Get(f, BtpName).value, Get(f, BundName).value))
      && (forall n :: n !in DerivedNames ==> Get(d, n) == Get(f, n))
  {
    DerivedNamesSplit();
    DeriveWithSpec(f, Growth, BtpName, BundName, SpreadName);
  }

  /** The filled frame of the configured series has the six columns the
      derivation reads. */
  lemma FilledHasInputs(series: seq<Series>)
    requires Configured(series)
    ensures WellFormed(Filled(series)) && HasDeriveInputs(Filled(series))
  {
    InputsConfigured();
    FilledSpec(series);
  }

  /** A frame with the derivation's inputs has every column to drop. */
  lemma DroppedPresent(f: Frame)
    requires HasDeriveInputs(f)
    ensures forall n :: n in ColumnsToDrop ==> Get(f, n).Some?
  {
    DroppedNames();
    assert Get(f, Growth[0].1).Some? && Get(f, Growth[1].1).Some?;
    assert Get(f, Growth[2].1).Some? && Get(f, Growth[3].1).Some?;
  }

  /** Just before `dropna`, the frame of the configured series is well
      formed on the joined index; the five dropped columns are gone; the
      growth columns and the spread are computed from the filled levels;
      every other column is the filled column of the same name. */
  lemma PreparedSpec(series: seq<Series>)
    requires Configured(series)
    ensures Prepared(series).Some?
    ensures var f := Filled(series); var t := Prepared(series).value;
      && WellFormed(f) && HasDeriveInputs(f)
      && WellFormed(t) && t.index == f.index
      && (forall n :: n in ColumnsToDrop ==> Get(t, n).None?)
      && (forall k :: 0 <= k < |Growth| ==> Get(t, Growth[k].0) == Some(PctChange(Get(f, Growth[k].1).value, Periods)))
      && Get(t, SpreadName) == Some(Spread(Get(f, BtpName).value, Get(f, BundName).value))
      && (forall n :: n !in ColumnsToDrop && n !in DerivedNames ==> Get(t, n) == Get(f, n))
  {
    DroppedNames();
    DerivedNamesSplit();
    var f := Filled(series);
    FilledHasInputs(series);
    DroppedPresent(f);
    DeriveSpec(f);
    var d := Derive(f).value;
    assert forall n :: n in ColumnsToDrop ==> Get(d, n) == Get(f, n);
    DropSpec(d, ColumnsToDrop);
    var t := Prepared(series).value;
    GrowthDerived();
  }

  /** The part of `PreparedSpec` that the row-level facts need. */
  lemma PreparedShape(series: seq<Series>)
    requires Configured(series)
    ensures Prepared(series).Some?
    ensures var t := Prepared(series).value;
      && WellFormed(t) && t.index == Filled(series).index
      && Get(t, Growth[0].0).Some? && LaggedColumn(Get(t, Growth[0].0).value)
  {
    PreparedSpec(series);
  }

  /** The stored frame of the configured series is well formed and has no
      missing cell; its rows are the rows of the filled frame that survive
      `dropna`, in their order, and none of them is among the first
      `Periods` rows; a filled row survives exactly when it is complete
      just before `dropna`. */
  lemma BuildShape(series: seq<Series>)
    requires Configured(series)
    ensures BuildMacroFrame(series).Some? && Prepared(series).Some?
    ensures var f := Filled(series); var r := BuildMacroFrame(series).value; var rows := SurvivingRows(series);
      && WellFormed(r)
      && (forall k, j :: 0 <= k < |r.columns| && 0 <= j < |r.index| ==> r.columns[k].cells[j].Some?)
      && |r.index| == |rows|
      && (forall j :: 0 <= j < |rows| ==> Periods <= rows[j] < |f.index| && r.index[j] == f.index[rows[j]])
      && (forall j, j' :: 0 <= j < j' < |rows| ==> rows[j] < rows[j'])
      && (forall i :: 0 <= i < |f.index| ==> (i in rows <==> RowComplete(Prepared(series).value, i)))
  {
    PreparedShape(series);
    var t := Prepared(series).value;
    DropNaShape(t);
    DropNaNoMissing(t);
    DropNaRows(t);
    DropNaSkipsLag(t, Growth[0].0);
  }

  /** Just before `dropna`, a column is there exactly when it is an output
      column. */
  lemma PreparedColumn(series: seq<Series>, n: string)
    requires Configured(series)
    ensures Prepared(series).Some?
    ensures Get(Prepared(series).value, n).Some? <==> n in OutputNames
  {
    OutputNamesSplit();
    DroppedNames();
    DerivedNamesSplit();
    PreparedSpec(series);
    var t := Prepared(series).value;
    if n in DerivedNames {
      if n != SpreadName {
        var k := WrittenBy(Growth, n);
        assert Get(t, Growth[k].0).Some?;
      }
    } else if n !in ColumnsToDrop {
      FilledSpec(series);
      assert Get(t, n) == Get(Filled(series), n);
    }
  }

  /** Just before `dropna` the frame has exactly the output columns. */
  lemma PreparedNames(series: seq<Series>)
    requires Configured(series)
    ensures Prepared(series).Some?
    ensures forall n :: Get(Prepared(series).value, n).Some? <==> n in OutputNames
  {
    PreparedSpec(series);
    forall n ensures Get(Prepared(series).value, n).Some? <==> n in OutputNames {
      PreparedColumn(series, n);
    }
  }

  /** The stored frame has exactly the output columns. */
  lemma BuildColumns(series: seq<Series>)
    requires Configured(series)
    ensures BuildMacroFrame(series).Some?
    ensures forall n :: Get(BuildMacroFrame(series).value, n).Some? <==> n in OutputNames
  {
    PreparedShape(series);
    PreparedNames(series);
    var t := Prepared(series).value;
    forall n ensures Get(DropNa(t), n).Some? <==> n in OutputNames {
      DropNaGet(t, n);
    }
  }

  /** The output columns are the configured ones that are not dropped,
      followed by the derived ones. */
  lemma OutputNamesSplit()
    ensures forall n :: n in OutputNames <==>
      n in DerivedNames || (n in ConfiguredNames() && n !in ColumnsToDrop)
  {
    var names := ConfiguredNames();
    assert names[0] == "btp_10y_yield" && names[1] == "bund_10y_yield";
    assert names[2] == "eu_inflation_index" && names[3] == "eu_gdp_value";
    assert names[4] == "ecb_deposit_rate" && names[5] == "eu_pmi_manufacturing";
    assert names[6] == "brent_oil_price" && names[7] == "eur_usd_exchange_rate";
    assert names[8] == "vix_close" && names[9] == "it_inflation_index";
    assert names[10] == "it_gdp_value" && names[11] == "it_pmi_manufacturing";
    assert names == ["btp_10y_yield", "bund_10y_yield", "eu_inflation_index", "eu_gdp_value",
      "ecb_deposit_rate", "eu_pmi_manufacturing", "brent_oil_price", "eur_usd_exchange_rate",
      "vix_close", "it_inflation_index", "it_gdp_value", "it_pmi_manufacturing"];
    NamesDiffer();
    DroppedNames();
  }

  /** No configured column name is the name of a derived column. */
  lemma ConfiguredNotDerived(n: string)
    requires n in ConfiguredNames()
    ensures n !in DerivedNames
  {
    var names := ConfiguredNames();
    var k :| 0 <= k < |names| && names[k] == n;
    NamesDiffer();
    assert "brent_oil_price"[1] != SpreadName[1];
    assert k == 0 || k == 1 || k == 2 || k == 3 || k == 4 || k == 5 || k == 6 || k == 7 ||
      k == 8 || k == 9 || k == 10 || k == 11;
  }

  /** Just before `dropna`, a configured column that is not dropped is the
      filled column. */
  lemma PreparedCarried(series: seq<Series>, n: string)
    requires Configured(series) && n in ConfiguredNames() && n !in ColumnsToDrop
    ensures Prepared(series).Some? && Get(Filled(series), n).Some?
    ensures Get(Prepared(series).value, n) == Get(Filled(series), n)
  {
    ConfiguredNotDerived(n);
    FilledSpec(series);
    PreparedSpec(series);
  }

  /** Just before `dropna`, a growth column is the percent change of its
      filled level column. */
  lemma PreparedGrowth(series: seq<Series>, dst: string, src: string)
    requires Configured(series) && (dst, src) in Growth
    ensures Prepared(series).Some? && Get(Filled(series), src).Some?
    ensures Get(Prepared(series).value, dst) == Some(PctChange(Get(Filled(series), src).value, Periods))
  {
    var k :| 0 <= k < |Growth| && Growth[k] == (dst, src);
    PreparedSpec(series);
    assert Get(Filled(series), Growth[k].1).Some?;
  }

  /** A configured column that is not dropped is stored as filled, read at
      the surviving rows. */
  lemma BuildCarried(series: seq<Series>, n: string)
    requires Configured(series) && n in ConfiguredNames() && n !in ColumnsToDrop
    ensures BuildMacroFrame(series).Some? && Get(Filled(series), n).Some?
    ensures var r := BuildMacroFrame(series).value; var c := Get(Filled(series), n).value;
      var rows := SurvivingRows(series);
      && Get(r, n).Some? && |Get(r, n).value| == |rows|
      && forall j :: 0 <= j < |rows| ==> rows[j] < |c| && Get(r, n).value[j] == c[rows[j]]
  {
    PreparedShape(series);
    PreparedCarried(series, n);
    DropNaGet(Prepared(series).value, n);
  }

  /** Each stored growth rate is the percent change, over `Periods` rows of
      the filled frame, of its level column: at every stored row both
      levels are present, the earlier one is not zero, and the stored rate
      is the percent change at that filled row, so that
      `rate * earlier == (current - earlier) * 100`. */
  lemma BuildGrowth(series: seq<Series>, dst: string, src: string)
    requires Configured(series) && (dst, src) in Growth
    ensures BuildMacroFrame(series).Some? && Get(Filled(series), src).Some?
    ensures var r := BuildMacroFrame(series).value; var c := Get(Filled(series), src).value;
      var rows := SurvivingRows(series);
      && Get(r, dst).Some? && |Get(r, dst).value| == |rows|
      && forall j :: 0 <= j < |rows| ==>
           && Periods <= rows[j] < |c| && c[rows[j]].Some? && c[rows[j] - Periods].Some?
           && c[rows[j] - Periods].value != 0.0
           && Get(r, dst).value[j] == PctChange(c, Periods)[rows[j]] && Get(r, dst).value[j].Some?
  {
    PreparedShape(series);
    PreparedGrowth(series, dst, src);
    DropNaGrowth(Prepared(series).value, dst, Get(Filled(series), src).value);
  }

  /** Just before `dropna`, the spread column is the difference of the two
      filled yields, and the Italian yield is the filled one. */
  lemma PreparedSpreadColumns(series: seq<Series>)
    requires Configured(series)
    ensures Prepared(series).Some?
    ensures Get(Filled(series), BtpName).Some? && Get(Filled(series), BundName).Some?
    ensures var f := Filled(series); var t := Prepared(series).value;
      && WellFormed(t)
      && |Get(f, BtpName).value| == |Get(f, BundName).value|
      && Get(t, SpreadName) == Some(Spread(Get(f, BtpName).value, Get(f, BundName).value))
      && Get(t, BtpName) == Get(f, BtpName)
  {
    DroppedNames();
    PreparedSpec(series);
  }

  /** The stored spread is, row by row, the filled Italian yield minus the
      filled German yield, both present; the stored Italian yield is the
      first of the two. */
  lemma BuildSpread(series: seq<Series>)
    requires Configured(series)
    ensures BuildMacroFrame(series).Some?
    ensures Get(Filled(series), BtpName).Some? && Get(Filled(series), BundName).Some?
    ensures DifferenceAt(BuildMacroFrame(series).value, SurvivingRows(series), SpreadName, BtpName,
      Get(Filled(series), BtpName).value, Get(Filled(series), BundName).value)
  {
    PreparedSpreadColumns(series);
    var f := Filled(series);
    var t := Prepared(series).value;
    DropNaSpread(t, SpreadName, BtpName, Get(f, BtpName).value, Get(f, BundName).value);
  }

  // ---------------------------------------------------------------------
  // Fetching the series and storing the result.

  /** The first day requested from the provider (line 80). */
  const MacroStart: CalendarDate := Date(2002, 1, 1)

  /** What `pdr.get_data_fred` returns for one series: the name of its date
      index, if it has one, and its readings. */
  datatype FredSeries = FredSeries(indexName: Option<string>, points: seq<Point>)

  /** `pdr.get_data_fred(series_id, start, end)`: one series between two
      dates; `None` is an exception raised by the provider. */
  type FredProvider = (string, CalendarDate, CalendarDate) -> Option<FredSeries>

  /** Lines 84-88: each configured series fetched and renamed, in order;
      the first failing fetch aborts the whole update. */
  function CollectSeries(config: seq<(string, string)>, start: CalendarDate, end: CalendarDate,
                         fetch: FredProvider): (r: Option<seq<Series>>)
    ensures r.Some? <==> forall k :: 0 <= k < |config| ==> fetch(config[k].1, start, end).Some?
    ensures r.Some? ==> |r.value| == |config|
    ensures r.Some? ==> forall k :: 0 <= k < |config| ==>
      fetch(config[k].1, start, end).Some? &&
      var got := fetch(config[k].1, start, end).value;
      r.value[k] == Series(config[k].0, got.indexName, got.points)
  {
    if config == [] then Some([])
    else
      var n := |config| - 1;
      var front :- CollectSeries(config[..n], start, end, fetch);
      var got :- fetch(config[n].1, start, end);
      Some(front + [Series(config[n].0, got.indexName, got.points)])
  }

  /** Lines 78-102: the frame one run computes with `today` as the end
      date, or `None` when an exception escapes. */
  function MacroRun(today: CalendarDate, fetch: FredProvider): (r: Option<Frame>)
    ensures r.Some? ==> Rectangular(r.value)
  {
    var series :- CollectSeries(FredSeriesMap, MacroStart, today, fetch);
    BuildMacroFrame(series)
  }

  /** The collected series carry the configured names. */
  lemma CollectedConfigured(today: CalendarDate, fetch: FredProvider)
    requires CollectSeries(FredSeriesMap, MacroStart, today, fetch).Some?
    ensures Configured(CollectSeries(FredSeriesMap, MacroStart, today, fetch).value)
  {
  }

  /** A run produces a frame exactly when every configured series is fetched
      without error: with this configuration no step up to `dropna` can
      raise. */
  lemma MacroRunDefined(today: CalendarDate, fetch: FredProvider)
    ensures MacroRun(today, fetch).Some? <==>
      forall k :: 0 <= k < |FredSeriesMap| ==> fetch(FredSeriesMap[k].1, MacroStart, today).Some?
  {
    var collected := CollectSeries(FredSeriesMap, MacroStart, today, fetch);
    if collected.Some? {
      CollectedConfigured(today, fetch);
      BuildShape(collected.value);
    }
  }

  /** Lines 84-88 as a loop: the series fetched one by one, returning
      `None` at the first failing fetch. */
  method FetchAll(today: CalendarDate, fetch: FredProvider) returns (r: Option<seq<Series>>)
    ensures r == CollectSeries(FredSeriesMap, MacroStart, today, fetch)
  {
    var all: seq<Series> := [];
    var i := 0;
    while i < |FredSeriesMap|
      invariant 0 <= i <= |FredSeriesMap|
      invariant CollectSeries(FredSeriesMap[..i], MacroStart, today, fetch) == Some(all)
    {
      var (name, id) := FredSeriesMap[i];
      var got := fetch(id, MacroStart, today);
      assert FredSeriesMap[..i + 1][..i] == FredSeriesMap[..i];
      if got.None? {
        assert CollectSeries(FredSeriesMap[..i + 1], MacroStart, today, fetch).None?;
        FailurePersists(FredSeriesMap, i + 1, today, fetch);
        return None;
      }
      all := all + [Series(name, got.value.indexName, got.value.points)];
      i := i + 1;
    }
    assert FredSeriesMap[..i] == FredSeriesMap;
    r := Some(all);
  }

  /** Once a prefix of the configuration fails, the whole of it fails. */
  lemma FailurePersists(config: seq<(string, string)>, i: nat, today: CalendarDate, fetch: FredProvider)
    requires i <= |config| && CollectSeries(config[..i], MacroStart, today, fetch).None?
    ensures CollectSeries(config, MacroStart, today, fetch).None?
  {
    var k :| 0 <= k < i && fetch(config[..i][k].1, MacroStart, today).None?;
    assert config[k] == config[..i][k];
  }

  // ---------------------------------------------------------------------
  // Writing the table.

  /** A row of `macro_data`: the date as `YYYY-MM-DD` text and one cell per
      column. */
  datatype MacroRecord = MacroRecord(dataDate: string, values: seq<Cell>)

  /** The `macro_data` table: its column names and its rows. */
  datatype MacroTable = MacroTable(header: seq<string>, records: seq<MacroRecord>)

  function ColumnNames(cols: seq<Column>): seq<string> {
    seq(|cols|, k requires 0 <= k < |cols| => cols[k].name)
  }

  /** Line 105: the name of the column `reset_index()` makes of the index:
      the index's own name, or `index` when it has none (`level_0` when a
      column is already called `index`). */
  function ResetIndexName(f: Frame): string {
    match f.indexName
    case Some(n) => n
    case None => if "index" in ColumnNames(f.columns) then "level_0" else "index"
  }

  /** Line 106: `rename(columns={'index': 'data_date'})`, on one name. */
  function RenameIndex(n: string): string {
    if n == "index" then "data_date" else n
  }

  /** Lines 105-107: the index becomes a `data_date` text column in front of
      the other columns, one record per row. `None` is the exception raised
      on the way: `reset_index` refuses an index named like an existing
      column (ValueError), and reading `data_date` raises KeyError when the
      rename produced no such column, which happens whenever the index
      carries a name other than `index` or `data_date`. */
  function ToTable(f: Frame): Option<MacroTable>
    requires Rectangular(f)
  {
    var names := ColumnNames(f.columns);
    var first := ResetIndexName(f);
    if first in names || RenameIndex(first) != "data_date" then
      None
    else if exists k :: 0 <= k < |names| && RenameIndex(names[k]) == "data_date" then
      None
    else
      Some(MacroTable(["data_date"] + names,
        seq(|f.index|, i requires 0 <= i < |f.index| =>
          MacroRecord(Format(f.index[i]), seq(|f.columns|, k requires 0 <= k < |f.columns| => f.columns[k].cells[i])))))
  }

  /** An index name under which line 107 finds the `data_date` column. */
  predicate WritableIndexName(n: Option<string>) {
    n.None? || n == Some("index") || n == Some("data_date")
  }

  /** No column is called `index`, `level_0` or `data_date`. */
  ghost predicate PlainColumns(f: Frame) {
    forall k :: 0 <= k < |f.columns| ==>
      f.columns[k].name != "index" && f.columns[k].name != "level_0" && f.columns[k].name != "data_date"
  }

  /** For a frame whose columns have ordinary names, the write gets past
      line 107 exactly when the index is unnamed or named `index` or
      `data_date`; an index with any other name makes it raise. */
  lemma ToTableDefined(f: Frame)
    requires Rectangular(f) && PlainColumns(f)
    ensures ToTable(f).Some? <==> WritableIndexName(f.indexName)
  {
    var names := ColumnNames(f.columns);
    assert forall k :: 0 <= k < |names| ==> names[k] == f.columns[k].name;
    assert "index" !in names && "data_date" !in names;
  }

  /** The stored table has one record per row in the frame's order; the
      `data_date` texts strictly increase (so no date is stored twice) and
      each record holds the row's cells under the column names. */
  lemma ToTableSpec(f: Frame)
    requires WellFormed(f) && ToTable(f).Some?
    ensures var t := ToTable(f).value;
      && t.header[0] == "data_date" && t.header[1..] == ColumnNames(f.columns)
      && |t.records| == |f.index|
      && (forall i :: 0 <= i < |f.index| ==>
            t.records[i].dataDate == Format(f.index[i]) && |t.records[i].values| == |f.columns| &&
            forall k :: 0 <= k < |f.columns| ==> t.records[i].values[k] == f.columns[k].cells[i])
      && (forall i, j :: 0 <= i < j < |t.records| ==> StrLess(t.records[i].dataDate, t.records[j].dataDate))
  {
    var t := ToTable(f).value;
    forall i, j | 0 <= i < j < |t.records| ensures StrLess(t.records[i].dataDate, t.records[j].dataDate) {
      FormatOrder(f.index[i], f.index[j]);
    }
  }

  /** Lines 78-108: the table one run writes, or `None` when an exception
      escapes before the write. */
  function MacroRunTable(today: CalendarDate, fetch: FredProvider): Option<MacroTable> {
    var frame :- MacroRun(today, fetch);
    ToTable(frame)
  }

  /** The stored frame of the configured series has only output columns,
      none of them named like the index column. */
  lemma BuildPlainColumns(series: seq<Series>)
    requires Configured(series)
    ensures BuildMacroFrame(series).Some? && PlainColumns(BuildMacroFrame(series).value)
  {
    BuildShape(series);
    BuildColumns(series);
    OutputNamesPlain();
    var r := BuildMacroFrame(series).value;
    GetSpec(r, "index");
    GetSpec(r, "level_0");
    GetSpec(r, "data_date");
  }

  /** A run writes a table exactly when every configured series is fetched
      without error and the joined index is unnamed or named `index` or
      `data_date`. */
  lemma MacroRunTableDefined(today: CalendarDate, fetch: FredProvider)
    ensures MacroRunTable(today, fetch).Some? <==>
      var collected := CollectSeries(FredSeriesMap, MacroStart, today, fetch);
      collected.Some? && WritableIndexName(JoinedName(collected.value))
  {
    MacroRunDefined(today, fetch);
    var collected := CollectSeries(FredSeriesMap, MacroStart, today, fetch);
    if collected.Some? {
      CollectedConfigured(today, fetch);
      BuildPlainColumns(collected.value);
      ToTableDefined(BuildMacroFrame(collected.value).value);
    }
  }

  /** When every series arrives with its date index named `name`, and
      `name` is neither `index` nor `data_date`, the run raises at line 107
      and writes nothing. */
  lemma NamedIndexNotWritten(today: CalendarDate, fetch: FredProvider, name: string)
    requires name != "index" && name != "data_date"
    requires forall k :: 0 <= k < |FredSeriesMap| ==>
      var got := fetch(FredSeriesMap[k].1, MacroStart, today); got.Some? && got.value.indexName == Some(name)
    ensures MacroRunTable(today, fetch).None?
  {
    MacroRunTableDefined(today, fetch);
    var collected := CollectSeries(FredSeriesMap, MacroStart, today, fetch).value;
    assert JoinedName(collected) == Some(name);
  }

  /** When every series arrives with an unnamed date index, the run writes
      the frame it built. */
  lemma UnnamedIndexWritten(today: CalendarDate, fetch: FredProvider)
    requires forall k :: 0 <= k < |FredSeriesMap| ==>
      var got := fetch(FredSeriesMap[k].1, MacroStart, today); got.Some? && got.value.indexName.None?
    ensures MacroRun(today, fetch).Some? && MacroRunTable(today, fetch).Some?
    ensures MacroRunTable(today, fetch) == ToTable(MacroRun(today, fetch).value)
  {
    MacroRunTableDefined(today, fetch);
    var collected := CollectSeries(FredSeriesMap, MacroStart, today, fetch).value;
    assert JoinedName(collected).None?;
  }

  /** The `macro_data` table, rebuilt by every successful update. */
  class MacroStore {
    /** `None` while the table does not exist. */
    var table: Option<MacroTable>

    constructor (initial: Option<MacroTable>)
      ensures table == initial
    {
      table := initial;
    }

    /** Lines 75-117: replace the table with the freshly built one; when an
        exception is raised before the write, it is reported and the table
        is left as it was. */
    method UpdateMacroData(today: CalendarDate, fetch: FredProvider) returns (ok: bool)
      modifies this
      ensures ok <==> MacroRunTable(today, fetch).Some?
      ensures ok ==> table == MacroRunTable(today, fetch)
      ensures !ok ==> table == old(table)
    {
      var series := FetchAll(today, fetch);
      if series.None? {
        return false;
      }
      var frame := BuildMacroFrame(series.value);
      if frame.None? {
        return false;
      }
      var written := ToTable(frame.value);
      if written.None? {
        return false;
      }
      table := written;
      return true;
    }
  }
}
