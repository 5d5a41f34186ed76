/** The data-frame operations the macro update applies: the outer join of
    several dated series onto one sorted date index, forward fill, the
    trailing percent change, the difference of two columns, dropping columns
    and dropping incomplete rows. A missing cell (pandas' NaN) is `None`. */
module MacroFrame {
  import opened Wrappers
  import opened Dates
  import opened Masks

  type Cell = Option<real>

  /** One reading of a provider series; its value may itself be missing. */
  datatype Point = Point(date: CalendarDate, value: Cell)

  /** A fetched series, already renamed to its local column name.
      `indexName` is the name its date index carries, if any. */
  datatype Series = Series(name: string, indexName: Option<string>, points: seq<Point>)

  datatype Column = Column(name: string, cells: seq<Cell>)

  /** A data frame: a date index (with its name, if it has one) and named
      columns of cells, row `i` of every column belonging to `index[i]`. */
  datatype Frame = Frame(indexName: Option<string>, index: seq<CalendarDate>, columns: seq<Column>)

  ghost predicate Ascending(ds: seq<CalendarDate>) {
    forall i, j :: 0 <= i < j < |ds| ==> Before(ds[i], ds[j])
  }

  ghost predicate DistinctNames(cols: seq<Column>) {
    forall j, k :: 0 <= j < k < |cols| ==> cols[j].name != cols[k].name
  }

  /** Every column is as long as the index. */
  ghost predicate Rectangular(f: Frame) {
    forall k :: 0 <= k < |f.columns| ==> |f.columns[k].cells| == |f.index|
  }

  /** The shape every frame built here has: a strictly ascending index,
      columns as long as the index, no two columns with one name. */
  ghost predicate WellFormed(f: Frame) {
    Ascending(f.index) && Rectangular(f) && DistinctNames(f.columns)
  }

  // ---------------------------------------------------------------------
  // Outer join and sort: `pd.concat(all_series, axis=1)` then `sort_index()`.

  /** `axis` with `d` added at its place, if it is not there yet. */
  function InsertDate(axis: seq<CalendarDate>, d: CalendarDate): (r: seq<CalendarDate>)
    requires Ascending(axis)
    ensures Ascending(r)
    ensures forall e :: e in r <==> e in axis || e == d
  {
    if axis == [] then [d]
    else if d == axis[0] then axis
    else if Before(d, axis[0]) then
      assert forall j :: 0 < j < |axis| ==> Before(axis[0], axis[j]);
      [d] + axis
    else
      BeforeTotal(d, axis[0]);
      var rest := InsertDate(axis[1..], d);
      assert forall e :: e in rest ==> Before(axis[0], e) by {
        forall e | e in rest ensures Before(axis[0], e) {
          if e != d {
            var j :| 0 <= j < |axis[1..]| && axis[1..][j] == e;
            assert axis[j + 1] == e;
          }
        }
      }
      assert forall j :: 0 < j < |[axis[0]] + rest| ==> ([axis[0]] + rest)[j] in rest;
      [axis[0]] + rest
  }

  ghost predicate HasDate(pts: seq<Point>, d: CalendarDate) {
    exists p :: p in pts && p.date == d
  }

  /** `axis` extended with the dates of `pts`. */
  function AddDates(axis: seq<CalendarDate>, pts: seq<Point>): (r: seq<CalendarDate>)
    requires Ascending(axis)
    ensures Ascending(r)
    ensures forall e :: e in r <==> e in axis || HasDate(pts, e)
    decreases |pts|
  {
    if pts == [] then axis
    else
      var r := AddDates(InsertDate(axis, pts[0].date), pts[1..]);
      assert forall p :: p in pts <==> p == pts[0] || p in pts[1..];
      r
  }

  ghost predicate InSomeSeries(series: seq<Series>, d: CalendarDate) {
    exists s :: s in series && HasDate(s.points, d)
  }

  /** The joined index: every date of every series, once, ascending. */
  function UnionIndex(series: seq<Series>): (axis: seq<CalendarDate>)
    ensures Ascending(axis)
    ensures forall d :: d in axis <==> InSomeSeries(series, d)
  {
    if series == [] then []
    else
      var n := |series| - 1;
      var axis := AddDates(UnionIndex(series[..n]), series[n].points);
      assert forall s :: s in series <==> s in series[..n] || s == series[n];
      axis
  }

  /** A series' reading at `d`, missing when it has none there. */
  function Lookup(pts: seq<Point>, d: CalendarDate): Cell {
    if pts == [] then None
    else if pts[0].date == d then pts[0].value
    else Lookup(pts[1..], d)
  }

  ghost predicate DistinctDates(pts: seq<Point>) {
    forall i, j :: 0 <= i < j < |pts| ==> pts[i].date != pts[j].date
  }

  /** A series' cell at a date is its reading there, or missing when it
      has no reading at that date. */
  lemma {:induction false} LookupSpec(pts: seq<Point>, d: CalendarDate)
    requires DistinctDates(pts)
    ensures !HasDate(pts, d) ==> Lookup(pts, d).None?
    ensures forall i :: 0 <= i < |pts| && pts[i].date == d ==> Lookup(pts, d) == pts[i].value
  {
    if pts != [] {
      assert DistinctDates(pts[1..]);
      LookupSpec(pts[1..], d);
      forall i | 0 < i < |pts| && pts[i].date == d ensures Lookup(pts, d) == pts[i].value {
        assert pts[1..][i - 1] == pts[i];
      }
      if !HasDate(pts, d) {
        assert !HasDate(pts[1..], d);
      }
    }
  }

  /** The name of the joined index: `concat` keeps the name that the
      indexes of all series share, and leaves the index unnamed when two of
      them differ. */
  function JoinedName(series: seq<Series>): Option<string> {
    if series != [] && forall k :: 0 <= k < |series| ==> series[k].indexName == series[0].indexName then
      series[0].indexName
    else
      None
  }

  /** Lines 90-91: one row per date of the union, ascending; one column per
      series, holding its readings on the joined index. */
  function Align(series: seq<Series>): (f: Frame)
    ensures Rectangular(f) && Ascending(f.index) && |f.columns| == |series|
  {
    var axis := UnionIndex(series);
    Frame(JoinedName(series), axis, seq(|series|, k requires 0 <= k < |series| =>
      Column(series[k].name, seq(|axis|, i requires 0 <= i < |axis| => Lookup(series[k].points, axis[i])))))
  }

  ghost predicate DistinctSeriesNames(series: seq<Series>) {
    forall j, k :: 0 <= j < k < |series| ==> series[j].name != series[k].name
  }

  /** The joined frame is well formed, its index is exactly the union of
      the series' dates, and the cell of series `k` at any index date is
      that series' reading there or missing. */
  lemma AlignSpec(series: seq<Series>)
    requires DistinctSeriesNames(series)
    requires forall k :: 0 <= k < |series| ==> DistinctDates(series[k].points)
    ensures var f := Align(series);
      && WellFormed(f)
      && (forall d :: d in f.index <==> InSomeSeries(series, d))
      && (series != [] && (forall k :: 0 <= k < |series| ==> series[k].indexName == series[0].indexName) ==>
            f.indexName == series[0].indexName)
      && (forall j, k :: 0 <= j < |series| && 0 <= k < |series| && series[j].indexName != series[k].indexName ==>
            f.indexName.None?)
      && |f.columns| == |series|
      && (forall k :: 0 <= k < |series| ==> f.columns[k].name == series[k].name)
      && (forall k, i, p :: 0 <= k < |series| && 0 <= i < |f.index| && p in series[k].points && p.date == f.index[i] ==>
            f.columns[k].cells[i] == p.value)
      && (forall k, i :: 0 <= k < |series| && 0 <= i < |f.index| && !HasDate(series[k].points, f.index[i]) ==>
            f.columns[k].cells[i].None?)
  {
    var f := Align(series);
    forall k, i | 0 <= k < |series| && 0 <= i < |f.index|
      ensures forall p :: p in series[k].points && p.date == f.index[i] ==> f.columns[k].cells[i] == p.value
      ensures !HasDate(series[k].points, f.index[i]) ==> f.columns[k].cells[i].None?
    {
      LookupSpec(series[k].points, f.index[i]);
    }
  }

  // ---------------------------------------------------------------------
  // Forward fill: `ffill()`, column by column.

  /** Fill `cells` from the front, `carry` being the last value seen before. */
  function FillFrom(cells: seq<Cell>, carry: Cell): (r: seq<Cell>)
    ensures |r| == |cells|
  {
    if cells == [] then []
    else
      var v := if cells[0].Some? then cells[0] else carry;
      [v] + FillFrom(cells[1..], v)
  }

  function ForwardFill(cells: seq<Cell>): (r: seq<Cell>)
    ensures |r| == |cells|
  {
    FillFrom(cells, None)
  }

  /** The reference: the nearest non-missing cell at or before `i`, or
      `carry` when there is none. */
  function LastSeen(cells: seq<Cell>, i: nat, carry: Cell): Cell
    requires i < |cells|
  {
    if cells[i].Some? then cells[i]
    else if i == 0 then carry
    else LastSeen(cells, i - 1, carry)
  }

  lemma {:induction false} LastSeenShift(cells: seq<Cell>, i: nat, carry: Cell)
    requires 0 < i < |cells|
    ensures LastSeen(cells[1..], i - 1, LastSeen(cells, 0, carry)) == LastSeen(cells, i, carry)
  {
    if i > 1 {
      LastSeenShift(cells, i - 1, carry);
    }
  }

  lemma {:induction false} FillFromAt(cells: seq<Cell>, carry: Cell, i: nat)
    requires i < |cells|
    ensures FillFrom(cells, carry)[i] == LastSeen(cells, i, carry)
    decreases |cells|
  {
    if i > 0 {
      var v := if cells[0].Some? then cells[0] else carry;
      FillFromAt(cells[1..], v, i - 1);
      LastSeenShift(cells, i, carry);
    }
  }

  /** Forward fill agrees with the reference at every position. */
  lemma ForwardFillAt(cells: seq<Cell>, i: nat)
    requires i < |cells|
    ensures ForwardFill(cells)[i] == LastSeen(cells, i, None)
  {
    FillFromAt(cells, None, i);
  }

  lemma {:induction false} LastSeenFacts(cells: seq<Cell>, i: nat)
    requires i < |cells|
    ensures LastSeen(cells, i, None).None? <==> forall j :: 0 <= j <= i ==> cells[j].None?
    ensures cells[i].None? && LastSeen(cells, i, None).Some? ==>
      exists j :: 0 <= j < i && cells[j] == LastSeen(cells, i, None) &&
        forall k :: j < k <= i ==> cells[k].None?
  {
    if i > 0 && cells[i].None? {
      LastSeenFacts(cells, i - 1);
      if LastSeen(cells, i - 1, None).Some? && cells[i - 1].None? {
        var j :| 0 <= j < i - 1 && cells[j] == LastSeen(cells, i - 1, None) &&
          forall k :: j < k <= i - 1 ==> cells[k].None?;
        assert forall k :: j < k <= i ==> cells[k].None?;
      }
    }
  }

  /** Line 92, forward fill: the length is kept and so is every present
      cell; a missing cell takes the nearest earlier present value of its
      column; a cell stays missing exactly when nothing at or before it is
      present (the leading gap). */
  lemma ForwardFillSpec(cells: seq<Cell>)
    ensures var r := ForwardFill(cells);
      && |r| == |cells|
      && (forall i :: 0 <= i < |cells| && cells[i].Some? ==> r[i] == cells[i])
      && (forall i :: 0 <= i < |cells| ==> (r[i].None? <==> forall j :: 0 <= j <= i ==> cells[j].None?))
      && (forall i :: 0 <= i < |cells| && cells[i].None? && r[i].Some? ==>
            exists j :: 0 <= j < i && cells[j] == r[i] && forall k :: j < k <= i ==> cells[k].None?)
  {
    forall i | 0 <= i < |cells| ensures ForwardFill(cells)[i] == LastSeen(cells, i, None) {
      ForwardFillAt(cells, i);
    }
    forall i | 0 <= i < |cells|
      ensures LastSeen(cells, i, None).None? <==> forall j :: 0 <= j <= i ==> cells[j].None?
      ensures cells[i].None? && LastSeen(cells, i, None).Some? ==>
        exists j :: 0 <= j < i && cells[j] == LastSeen(cells, i, None) &&
          forall k :: j < k <= i ==> cells[k].None?
    {
      LastSeenFacts(cells, i);
    }
  }

  lemma {:induction false} LastSeenOfFilled(cells: seq<Cell>, i: nat)
    requires i < |cells|
    ensures LastSeen(ForwardFill(cells), i, None) == ForwardFill(cells)[i]
  {
    var r := ForwardFill(cells);
    ForwardFillAt(cells, i);
    if r[i].None? && i > 0 {
      ForwardFillAt(cells, i - 1);
      LastSeenOfFilled(cells, i - 1);
    }
  }

  /** Filling an already filled column changes nothing. */
  lemma ForwardFillIdempotent(cells: seq<Cell>)
    ensures ForwardFill(ForwardFill(cells)) == ForwardFill(cells)
  {
    var r := ForwardFill(cells);
    forall i | 0 <= i < |r| ensures ForwardFill(r)[i] == r[i] {
      ForwardFillAt(r, i);
      LastSeenOfFilled(cells, i);
    }
  }

  /** Every column forward-filled. */
  function FillFrame(f: Frame): (g: Frame)
    ensures Rectangular(f) ==> Rectangular(g)
  {
    f.(columns := seq(|f.columns|, k requires 0 <= k < |f.columns| =>
      Column(f.columns[k].name, ForwardFill(f.columns[k].cells))))
  }

  lemma FillFrameSpec(f: Frame)
    requires WellFormed(f)
    ensures var g := FillFrame(f);
      && WellFormed(g) && g.indexName == f.indexName && g.index == f.index && |g.columns| == |f.columns|
      && forall k :: 0 <= k < |f.columns| ==>
           g.columns[k].name == f.columns[k].name && g.columns[k].cells == ForwardFill(f.columns[k].cells)
  {
  }

  // ---------------------------------------------------------------------
  // Derived columns.

  /** `pct_change(periods=n) * 100`: missing in the first `n` rows and
      wherever either operand is missing. A zero base is also missing here
      (pandas yields NaN for 0/0 and an infinity otherwise). */
  function PctChange(cells: seq<Cell>, n: nat): (r: seq<Cell>)
    ensures |r| == |cells|
    ensures forall i :: 0 <= i < |cells| && i < n ==> r[i].None?
    ensures forall i :: n <= i < |cells| ==>
      (r[i].Some? <==> cells[i].Some? && cells[i - n].Some? && cells[i - n].value != 0.0)
    ensures forall i :: n <= i < |cells| && r[i].Some? ==>
      r[i].value * cells[i - n].value == (cells[i].value - cells[i - n].value) * 100.0
  {
    seq(|cells|, i requires 0 <= i < |cells| =>
      if i < n || cells[i].None? || cells[i - n].None? || cells[i - n].value == 0.0 then None
      else Some((cells[i].value / cells[i - n].value - 1.0) * 100.0))
  }

  /** Line 98: `a - b`, missing where either is missing. */
  function Spread(a: seq<Cell>, b: seq<Cell>): (r: seq<Cell>)
    ensures |r| == |a|
  {
    seq(|a|, i requires 0 <= i < |a| =>
      if i < |b| && a[i].Some? && b[i].Some? then Some(a[i].value - b[i].value) else None)
  }

  /** The spread is the row-by-row difference of the two yields, present
      exactly where both are. */
  lemma SpreadSpec(a: seq<Cell>, b: seq<Cell>)
    requires |a| == |b|
    ensures forall i :: 0 <= i < |a| ==>
      (Spread(a, b)[i].Some? <==> a[i].Some? && b[i].Some?) &&
      (Spread(a, b)[i].Some? ==> Spread(a, b)[i].value + b[i].value == a[i].value)
  {
  }

  // ---------------------------------------------------------------------
  // Columns by name.

  /** The position of the first column named `name`. */
  function FindColumn(cols: seq<Column>, name: string): (r: Option<nat>)
    ensures r.Some? ==> r.value < |cols| && cols[r.value].name == name
  {
    if cols == [] then None
    else if cols[0].name == name then Some(0)
    else match FindColumn(cols[1..], name)
      case Some(k) => Some(k + 1)
      case None => None
  }

  /** The first column named `name` is found; a miss means there is none. */
  lemma {:induction false} FindColumnSpec(cols: seq<Column>, name: string)
    ensures var r := FindColumn(cols, name);
      && (r.Some? ==> forall k :: 0 <= k < r.value ==> cols[k].name != name)
      && (r.None? ==> forall k :: 0 <= k < |cols| ==> cols[k].name != name)
  {
    if cols != [] && cols[0].name != name {
      FindColumnSpec(cols[1..], name);
      assert forall k :: 0 < k < |cols| ==> cols[k] == cols[1..][k - 1];
    }
  }

  /** `df[name]`; `None` is the KeyError of a missing column. */
  function Get(f: Frame, name: string): (r: Option<seq<Cell>>)
    ensures r.Some? && Rectangular(f) ==> |r.value| == |f.index|
  {
    match FindColumn(f.columns, name)
    case Some(k) => Some(f.columns[k].cells)
    case None => None
  }

  /** `df[name] = cells`: replaces the column of that name, or appends it. */
  function WithColumn(f: Frame, name: string, cells: seq<Cell>): (g: Frame)
    ensures g.indexName == f.indexName && g.index == f.index
    ensures Rectangular(f) && |cells| == |f.index| ==> Rectangular(g)
  {
    match FindColumn(f.columns, name)
    case Some(k) => f.(columns := f.columns[k := Column(name, cells)])
    case None => f.(columns := f.columns + [Column(name, cells)])
  }

  /** With distinct names, looking a column up finds exactly the column of
      the frame that has that name. */
  lemma GetSpec(f: Frame, name: string)
    requires DistinctNames(f.columns)
    ensures Get(f, name).Some? <==> exists k :: 0 <= k < |f.columns| && f.columns[k].name == name
    ensures forall k :: 0 <= k < |f.columns| && f.columns[k].name == name ==> Get(f, name) == Some(f.columns[k].cells)
  {
    FindColumnSpec(f.columns, name);
  }

  /** Setting a column: reading it back gives the new cells, other columns
      read as before, and the frame stays well formed. */
  lemma WithColumnSpec(f: Frame, name: string, cells: seq<Cell>)
    requires WellFormed(f) && |cells| == |f.index|
    ensures var g := WithColumn(f, name, cells);
      && WellFormed(g) && g.index == f.index
      && Get(g, name) == Some(cells)
      && (forall other :: other != name ==> Get(g, other) == Get(f, other))
  {
    var g := WithColumn(f, name, cells);
    WithColumnShape(f, name, cells);
    assert DistinctNames(g.columns);
    GetSpec(g, name);
    forall other | other != name ensures Get(g, other) == Get(f, other) {
      GetSpec(f, other);
      GetSpec(g, other);
    }
  }

  /** Where the new column lands: in place of the column of that name, or
      appended when there was none. */
  lemma WithColumnShape(f: Frame, name: string, cells: seq<Cell>)
    requires DistinctNames(f.columns)
    ensures var g := WithColumn(f, name, cells);
      && |f.columns| <= |g.columns| <= |f.columns| + 1
      && (forall j :: 0 <= j < |g.columns| && g.columns[j].name != name ==> j < |f.columns| && g.columns[j] == f.columns[j])
      && (forall j :: 0 <= j < |f.columns| && f.columns[j].name != name ==> g.columns[j] == f.columns[j])
      && (forall j :: 0 <= j < |g.columns| && g.columns[j].name == name ==> g.columns[j] == Column(name, cells))
      && (|g.columns| == |f.columns| + 1 ==> forall j :: 0 <= j < |f.columns| ==> f.columns[j].name != name)
      && Column(name, cells) in g.columns
  {
    FindColumnSpec(f.columns, name);
    var g := WithColumn(f, name, cells);
    match FindColumn(f.columns, name)
    case Some(k) =>
      assert g.columns[k] == Column(name, cells);
    case None =>
      assert g.columns[|f.columns|] == Column(name, cells);
  }

  /** Setting a column keeps every other column and adds the new one, and
      the frame has no other column. */
  lemma WithColumnColumns(f: Frame, name: string, cells: seq<Cell>)
    requires DistinctNames(f.columns)
    ensures var g := WithColumn(f, name, cells);
      forall c :: c in g.columns <==> (c in f.columns && c.name != name) || c == Column(name, cells)
  {
    var g := WithColumn(f, name, cells);
    WithColumnShape(f, name, cells);
    forall c | c in g.columns ensures (c in f.columns && c.name != name) || c == Column(name, cells) {
      var j :| 0 <= j < |g.columns| && g.columns[j] == c;
    }
    forall c | c in f.columns && c.name != name ensures c in g.columns {
      var j :| 0 <= j < |f.columns| && f.columns[j] == c;
      assert g.columns[j] == c;
    }
  }

  /** Line 101: `drop(columns=names)`; `None` is the KeyError raised when a
      name is not a column. */
  function DropColumns(f: Frame, names: seq<string>): (r: Option<Frame>)
    ensures r.Some? ==> r.value.indexName == f.indexName && r.value.index == f.index
    ensures r.Some? && Rectangular(f) ==> Rectangular(r.value)
  {
    if forall n :: n in names ==> FindColumn(f.columns, n).Some? then
      var p := (c: Column) => c.name !in names;
      FilterMembers(f.columns, p);
      var kept := Filter(f.columns, p);
      assert forall k :: 0 <= k < |kept| ==> kept[k] in f.columns;
      Some(f.(columns := kept))
    else
      None
  }

  /** Dropping succeeds exactly when every name is a column. */
  lemma DropColumnsDefined(f: Frame, names: seq<string>)
    ensures DropColumns(f, names).Some? <==>
      forall n :: n in names ==> exists k :: 0 <= k < |f.columns| && f.columns[k].name == n
  {
    forall n | n in names {
      FindColumnSpec(f.columns, n);
    }
    if forall n :: n in names ==> exists k :: 0 <= k < |f.columns| && f.columns[k].name == n {
      forall n | n in names ensures FindColumn(f.columns, n).Some? {
        var k :| 0 <= k < |f.columns| && f.columns[k].name == n;
      }
    }
  }

  /** After dropping, the frame is well formed on the same index and holds
      exactly the columns whose names were not dropped, in their order. */
  lemma DropColumnsShape(f: Frame, names: seq<string>)
    requires WellFormed(f) && DropColumns(f, names).Some?
    ensures var g := DropColumns(f, names).value;
      && WellFormed(g) && g.index == f.index
      && g.columns == Filter(f.columns, (c: Column) => c.name !in names)
      && (forall c :: c in g.columns <==> c in f.columns && c.name !in names)
  {
    var p := (c: Column) => c.name !in names;
    KeptColumns(f, p);
    FilterMembers(f.columns, p);
  }

  /** After dropping, the named columns are gone and every other column
      reads as before. */
  lemma DropColumnsGet(f: Frame, names: seq<string>)
    requires WellFormed(f) && DropColumns(f, names).Some?
    ensures var g := DropColumns(f, names).value;
      && (forall n :: n in names ==> Get(g, n).None?)
      && (forall n :: n !in names ==> Get(g, n) == Get(f, n))
  {
    var g := DropColumns(f, names).value;
    DropColumnsShape(f, names);
    forall n | n in names ensures Get(g, n).None? {
      GetSpec(g, n);
      forall k | 0 <= k < |g.columns| ensures g.columns[k].name != n {
        assert g.columns[k] in g.columns;
      }
    }
    forall n | n !in names ensures Get(g, n) == Get(f, n) {
      GetSpec(f, n);
      GetSpec(g, n);
      if Get(f, n).Some? {
        var k :| 0 <= k < |f.columns| && f.columns[k].name == n;
        assert f.columns[k] in g.columns;
      }
      if Get(g, n).Some? {
        var k :| 0 <= k < |g.columns| && g.columns[k].name == n;
        assert g.columns[k] in g.columns;
      }
    }
  }

  /** Filtering the columns of a well-formed frame gives a well-formed frame. */
  lemma KeptColumns(f: Frame, p: Column -> bool)
    requires WellFormed(f)
    ensures WellFormed(f.(columns := Filter(f.columns, p)))
  {
    var cols := Filter(f.columns, p);
    FilterSpec(f.columns, p);
    var idx := Kept(MaskOf(f.columns, p));
    forall j, k | 0 <= j < k < |cols| ensures cols[j].name != cols[k].name {
      assert cols[j] == f.columns[idx[j]] && cols[k] == f.columns[idx[k]];
    }
    forall k | 0 <= k < |cols| ensures |cols[k].cells| == |f.index| {
      assert cols[k] == f.columns[idx[k]];
    }
  }

  // ---------------------------------------------------------------------
  // `dropna()`: keep the rows with no missing cell.

  ghost predicate RowComplete(f: Frame, i: nat) {
    forall k :: 0 <= k < |f.columns| ==> i < |f.columns[k].cells| && f.columns[k].cells[i].Some?
  }

  function RowMask(f: Frame): (mask: seq<bool>)
    ensures |mask| == |f.index|
  {
    seq(|f.index|, i requires 0 <= i < |f.index| =>
      forall k :: 0 <= k < |f.columns| ==> i < |f.columns[k].cells| && f.columns[k].cells[i].Some?)
  }

  /** Line 102. */
  function DropNa(f: Frame): (g: Frame)
    requires Rectangular(f)
    ensures Rectangular(g) && |g.columns| == |f.columns| && g.indexName == f.indexName
  {
    var mask := RowMask(f);
    Frame(f.indexName, Select(f.index, mask), seq(|f.columns|, k requires 0 <= k < |f.columns| =>
      Column(f.columns[k].name, Select(f.columns[k].cells, mask))))
  }

  /** `dropna` keeps the frame well formed and the columns and their names. */
  lemma DropNaShape(f: Frame)
    requires WellFormed(f)
    ensures var g := DropNa(f);
      && WellFormed(g)
      && |g.columns| == |f.columns|
      && (forall k :: 0 <= k < |f.columns| ==> g.columns[k].name == f.columns[k].name)
  {
    var g := DropNa(f);
    var idx := Kept(RowMask(f));
    forall j, j' | 0 <= j < j' < |g.index| ensures Before(g.index[j], g.index[j']) {
      assert g.index[j] == f.index[idx[j]] && g.index[j'] == f.index[idx[j']];
    }
  }

  /** After `dropna` no cell is missing. */
  lemma DropNaNoMissing(f: Frame)
    requires WellFormed(f)
    ensures forall k, j :: 0 <= k < |DropNa(f).columns| && 0 <= j < |DropNa(f).index| ==>
      DropNa(f).columns[k].cells[j].Some?
  {
    var g := DropNa(f);
    var mask := RowMask(f);
    var idx := Kept(mask);
    forall k, j | 0 <= k < |g.columns| && 0 <= j < |g.index| ensures g.columns[k].cells[j].Some? {
      assert mask[idx[j]];
    }
  }

  /** The rows `dropna` keeps are exactly the rows without a missing cell,
      whole and in their relative order. */
  lemma DropNaRows(f: Frame)
    requires WellFormed(f)
    ensures var g := DropNa(f); var idx := Kept(RowMask(f));
      && |g.index| == |idx|
      && (forall j, j' :: 0 <= j < j' < |idx| ==> idx[j] < idx[j'])
      && (forall j :: 0 <= j < |idx| ==> idx[j] < |f.index| && g.index[j] == f.index[idx[j]])
      && (forall k, j :: 0 <= k < |f.columns| && 0 <= j < |idx| ==> g.columns[k].cells[j] == f.columns[k].cells[idx[j]])
      && (forall i :: 0 <= i < |f.index| ==> (RowComplete(f, i) <==> i in idx))
  {
  }

  /** Reading a column by name after `dropna` gives that column at the kept
      rows; a name that was not a column still is not. */
  lemma DropNaGet(f: Frame, name: string)
    requires WellFormed(f)
    ensures Get(f, name).None? ==> Get(DropNa(f), name).None?
    ensures Get(f, name).Some? ==> Get(DropNa(f), name) == Some(Select(Get(f, name).value, RowMask(f)))
  {
    var g := DropNa(f);
    DropNaShape(f);
    GetSpec(f, name);
    GetSpec(g, name);
    if Get(g, name).Some? {
      var k :| 0 <= k < |g.columns| && g.columns[k].name == name;
      assert f.columns[k].name == name;
    }
  }

  /** A row `dropna` keeps has a present cell in every column. */
  lemma CompleteRowCell(f: Frame, name: string, i: nat)
    requires WellFormed(f) && Get(f, name).Some? && RowComplete(f, i)
    ensures i < |Get(f, name).value| && Get(f, name).value[i].Some?
  {
    GetSpec(f, name);
    var k :| 0 <= k < |f.columns| && f.columns[k].name == name;
  }

  /** A frame without missing cells passes `dropna` unchanged; so `dropna`
      is idempotent. */
  lemma DropNaIdempotent(f: Frame)
    requires WellFormed(f)
    ensures WellFormed(DropNa(f)) && DropNa(DropNa(f)) == DropNa(f)
  {
    DropNaShape(f);
    DropNaNoMissing(f);
    var g := DropNa(f);
    assert Rectangular(g);
    var mask := RowMask(g);
    forall i | 0 <= i < |mask| ensures mask[i] {
      assert forall k :: 0 <= k < |g.columns| ==> g.columns[k].cells[i].Some?;
    }
    SelectAll(g.index, mask);
    var h := DropNa(g);
    assert |h.columns| == |g.columns|;
    forall k | 0 <= k < |g.columns| ensures h.columns[k] == g.columns[k] {
      SelectAll(g.columns[k].cells, mask);
    }
    assert h.columns == g.columns;
  }

  /** An all-true mask selects everything. */
  lemma SelectAll<T>(s: seq<T>, mask: seq<bool>)
    requires |mask| == |s| && forall i :: 0 <= i < |mask| ==> mask[i]
    ensures Select(s, mask) == s
  {
    KeptAll(mask);
  }

  /** An all-true mask keeps every position. */
  lemma {:induction false} KeptAll(mask: seq<bool>)
    requires forall i :: 0 <= i < |mask| ==> mask[i]
    ensures |Kept(mask)| == |mask| && forall j :: 0 <= j < |mask| ==> Kept(mask)[j] == j
  {
    if mask != [] {
      KeptAll(mask[..|mask| - 1]);
    }
  }
}
