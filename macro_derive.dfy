/** The derived columns of the macro update for any column names: a run of
    growth steps, each the lagged percent change of a level column, then a
    difference column; and what `dropna` leaves of such columns. */
module MacroDerive {
  import opened Wrappers
  import opened Masks
  import opened MacroFrame

  /** The lag of every growth rate, in rows of the joined index. */
  const Periods: nat := 365

  /** One of lines 94-97: `df[dst] = df[src].pct_change(periods=365) * 100`.
      `None` is the KeyError of a missing `src`. */
  function AddGrowth(f: Frame, dst: string, src: string): (r: Option<Frame>)
    ensures r.Some? ==> r.value.indexName == f.indexName && r.value.index == f.index
    ensures r.Some? && Rectangular(f) ==> Rectangular(r.value)
  {
    var level :- Get(f, src);
    Some(WithColumn(f, dst, PctChange(level, Periods)))
  }

  /** Lines 94-97: the growth assignments of `steps`, in order. */
  function AddGrowths(f: Frame, steps: seq<(string, string)>): (r: Option<Frame>)
    ensures r.Some? ==> r.value.indexName == f.indexName && r.value.index == f.index
    ensures r.Some? && Rectangular(f) ==> Rectangular(r.value)
  {
    if steps == [] then Some(f)
    else
      var n := |steps| - 1;
      var g :- AddGrowths(f, steps[..n]);
      AddGrowth(g, steps[n].0, steps[n].1)
  }

  /** Lines 94-98 with the column names as parameters: the growth steps,
      then `spread = a - b`. `None` is the KeyError of reading a column the
      frame does not have. */
  function DeriveWith(f: Frame, steps: seq<(string, string)>, a: string, b: string, spread: string): (r: Option<Frame>)
    ensures r.Some? ==> r.value.indexName == f.indexName && r.value.index == f.index
    ensures r.Some? && Rectangular(f) ==> Rectangular(r.value)
  {
    var g :- AddGrowths(f, steps);
    var x :- Get(g, a);
    var y :- Get(g, b);
    Some(WithColumn(g, spread, Spread(x, y)))
  }

  /** A growth step on a well-formed frame with its level column succeeds,
      adds (or replaces) the growth column and leaves every other column as
      it was. */
  lemma AddGrowthSpec(f: Frame, dst: string, src: string)
    requires WellFormed(f) && Get(f, src).Some?
    ensures AddGrowth(f, dst, src).Some?
    ensures var g := AddGrowth(f, dst, src).value;
      && WellFormed(g) && g.index == f.index
      && Get(g, dst) == Some(PctChange(Get(f, src).value, Periods))
      && (forall n :: n != dst ==> Get(g, n) == Get(f, n))
  {
    WithColumnSpec(f, dst, PctChange(Get(f, src).value, Periods));
  }

  /** The columns `steps` write, in order. */
  function Written(steps: seq<(string, string)>): seq<string> {
    seq(|steps|, k requires 0 <= k < |steps| => steps[k].0)
  }

  /** No step reads a column that a step writes, and no two steps write
      the same column. */
  ghost predicate IndependentSteps(steps: seq<(string, string)>) {
    && (forall j, k :: 0 <= j < |steps| && 0 <= k < |steps| ==> steps[j].1 != steps[k].0)
    && (forall j, k :: 0 <= j < k < |steps| ==> steps[j].0 != steps[k].0)
  }

  /** The frame has every level column the steps read. */
  ghost predicate ReadsPresent(f: Frame, steps: seq<(string, string)>) {
    forall k :: 0 <= k < |steps| ==> Get(f, steps[k].1).Some?
  }

  /** Independent growth steps on a well-formed frame holding their level
      columns succeed; each growth column is the percent change of its level
      column in the original frame, and every column no step writes is kept. */
  lemma {:induction false} AddGrowthsSpec(f: Frame, steps: seq<(string, string)>)
    requires WellFormed(f) && IndependentSteps(steps) && ReadsPresent(f, steps)
    ensures AddGrowths(f, steps).Some?
    ensures var g := AddGrowths(f, steps).value;
      && WellFormed(g) && g.index == f.index
      && (forall k :: 0 <= k < |steps| ==> Get(g, steps[k].0) == Some(PctChange(Get(f, steps[k].1).value, Periods)))
      && (forall n :: n !in Written(steps) ==> Get(g, n) == Get(f, n))
  {
    if steps != [] {
      var m := |steps| - 1;
      var front := steps[..m];
      IndependentFront(steps);
      assert ReadsPresent(f, front);
      AddGrowthsSpec(f, front);
      var g := AddGrowths(f, front).value;
      var (dst, src) := steps[m];
      GrowthStep(f, g, front, dst, src);
      var h := AddGrowth(g, dst, src).value;
      assert AddGrowths(f, steps) == Some(h);
      forall k | 0 <= k < |steps|
        ensures Get(h, steps[k].0) == Some(PctChange(Get(f, steps[k].1).value, Periods))
      {
        if k < m {
          assert steps[k] == front[k];
        }
      }
      forall n | n !in Written(steps) ensures Get(h, n) == Get(f, n) {
        assert n !in Written(front) && n != dst;
      }
    }
  }

  /** The steps before the last are independent too; the last reads a column
      none of them writes and writes a column none of them writes. */
  lemma IndependentFront(steps: seq<(string, string)>)
    requires steps != [] && IndependentSteps(steps)
    ensures var m := |steps| - 1;
      && steps == steps[..m] + [steps[m]]
      && IndependentSteps(steps[..m])
      && Written(steps) == Written(steps[..m]) + [steps[m].0]
      && steps[m].0 !in Written(steps[..m]) && steps[m].1 !in Written(steps[..m])
  {
    var m := |steps| - 1;
    var front := steps[..m];
    var wf := Written(front);
    assert steps == front + [steps[m]];
    assert Written(steps) == wf + [steps[m].0];
    forall x | x in wf ensures x != steps[m].0 && x != steps[m].1 {
      var i :| 0 <= i < |wf| && wf[i] == x;
      assert front[i] == steps[i];
    }
  }



  /** One more growth step after `front`: the new growth column is added,
      the growth columns of `front` and the columns no step writes are kept. */
  lemma GrowthStep(f: Frame, g: Frame, front: seq<(string, string)>, dst: string, src: string)
    requires WellFormed(g) && g.index == f.index && ReadsPresent(f, front)
    requires forall k :: 0 <= k < |front| ==> Get(g, front[k].0) == Some(PctChange(Get(f, front[k].1).value, Periods))
    requires forall n :: n !in Written(front) ==> Get(g, n) == Get(f, n)
    requires Get(f, src).Some? && src !in Written(front) && dst !in Written(front)
    ensures AddGrowth(g, dst, src).Some?
    ensures var h := AddGrowth(g, dst, src).value;
      && WellFormed(h) && h.index == f.index
      && (forall k :: 0 <= k < |front| ==> Get(h, front[k].0) == Some(PctChange(Get(f, front[k].1).value, Periods)))
      && Get(h, dst) == Some(PctChange(Get(f, src).value, Periods))
      && (forall n :: n !in Written(front) && n != dst ==> Get(h, n) == Get(f, n))
  {
    AddGrowthSpec(g, dst, src);
    var h := AddGrowth(g, dst, src).value;
    var w := Written(front);
    forall k | 0 <= k < |front|
      ensures Get(h, front[k].0) == Some(PctChange(Get(f, front[k].1).value, Periods))
    {
      assert w[k] == front[k].0;
      assert Get(h, front[k].0) == Get(g, front[k].0);
    }
  }

  /** What the derivation needs of its names: independent growth steps,
      and two yields and a spread column that no step writes. */
  ghost predicate DeriveNamesOk(steps: seq<(string, string)>, a: string, b: string, spread: string) {
    IndependentSteps(steps) && a !in Written(steps) && b !in Written(steps) && spread !in Written(steps)
  }

  /** With its inputs present, the derivation succeeds; each growth column
      is the lagged percent change of its level column, the spread is the
      difference of the two yields, and every other column is untouched. */
  lemma DeriveWithSpec(f: Frame, steps: seq<(string, string)>, a: string, b: string, spread: string)
    requires WellFormed(f) && DeriveNamesOk(steps, a, b, spread)
    requires ReadsPresent(f, steps) && Get(f, a).Some? && Get(f, b).Some?
    ensures DeriveWith(f, steps, a, b, spread).Some?
    ensures var d := DeriveWith(f, steps, a, b, spread).value;
      && WellFormed(d) && d.index == f.index
      && (forall k :: 0 <= k < |steps| ==> Get(d, steps[k].0) == Some(PctChange(Get(f, steps[k].1).value, Periods)))
      && Get(d, spread) == Some(Spread(Get(f, a).value, Get(f, b).value))
      && (forall n :: n !in Written(steps) && n != spread ==> Get(d, n) == Get(f, n))
  {
    AddGrowthsSpec(f, steps);
    var g := AddGrowths(f, steps).value;
    assert Get(g, a) == Get(f, a) && Get(g, b) == Get(f, b);
    var s := Spread(Get(f, a).value, Get(f, b).value);
    assert DeriveWith(f, steps, a, b, spread) == Some(WithColumn(g, spread, s));
    SpreadStep(f, g, steps, spread, s);
  }

  /** Setting the spread column after the growth steps keeps the growth
      columns and every column no step writes. */
  lemma SpreadStep(f: Frame, g: Frame, steps: seq<(string, string)>, spread: string, s: seq<Cell>)
    requires WellFormed(g) && g.index == f.index && |s| == |g.index| && ReadsPresent(f, steps)
    requires forall k :: 0 <= k < |steps| ==> Get(g, steps[k].0) == Some(PctChange(Get(f, steps[k].1).value, Periods))
    requires forall n :: n !in Written(steps) ==> Get(g, n) == Get(f, n)
    requires spread !in Written(steps)
    ensures var d := WithColumn(g, spread, s);
      && WellFormed(d) && d.index == f.index
      && (forall k :: 0 <= k < |steps| ==> Get(d, steps[k].0) == Some(PctChange(Get(f, steps[k].1).value, Periods)))
      && Get(d, spread) == Some(s)
      && (forall n :: n !in Written(steps) && n != spread ==> Get(d, n) == Get(f, n))
  {
    WithColumnSpec(g, spread, s);
    var d := WithColumn(g, spread, s);
    var w := Written(steps);
    forall k | 0 <= k < |steps|
      ensures Get(d, steps[k].0) == Some(PctChange(Get(f, steps[k].1).value, Periods))
    {
      assert w[k] == steps[k].0;
      assert Get(d, steps[k].0) == Get(g, steps[k].0);
    }
  }

  /** A well-formed frame holding every column to drop loses exactly those. */
  lemma DropSpec(d: Frame, names: seq<string>)
    requires WellFormed(d) && forall n :: n in names ==> Get(d, n).Some?
    ensures DropColumns(d, names).Some?
    ensures var t := DropColumns(d, names).value;
      && WellFormed(t) && t.index == d.index
      && (forall n :: n in names ==> Get(t, n).None?)
      && (forall n :: n !in names ==> Get(t, n) == Get(d, n))
  {
    forall n | n in names ensures exists k :: 0 <= k < |d.columns| && d.columns[k].name == n {
      GetSpec(d, n);
    }
    DropColumnsDefined(d, names);
    DropColumnsShape(d, names);
    DropColumnsGet(d, names);
  }

  /** The step that writes a written column. */
  lemma WrittenBy(steps: seq<(string, string)>, n: string) returns (k: nat)
    requires n in Written(steps)
    ensures k < |steps| && steps[k].0 == n
  {
    var w := Written(steps);
    k :| 0 <= k < |w| && w[k] == n;
  }

  /** A column that is missing in its first `Periods` rows. */
  ghost predicate LaggedColumn(cells: seq<Cell>) {
    forall i :: 0 <= i < |cells| && i < Periods ==> cells[i].None?
  }

  /** When one column is missing in its first `Periods` rows, `dropna`
      keeps none of those rows. */
  lemma DropNaSkipsLag(t: Frame, name: string)
    requires WellFormed(t) && Get(t, name).Some? && LaggedColumn(Get(t, name).value)
    ensures forall j :: 0 <= j < |Kept(RowMask(t))| ==> Periods <= Kept(RowMask(t))[j]
  {
    var rows := Kept(RowMask(t));
    DropNaRows(t);
    forall j | 0 <= j < |rows| ensures Periods <= rows[j] {
      assert rows[j] in rows;
      CompleteRowCell(t, name, rows[j]);
    }
  }

  /** After `dropna`, a percent-change column has, at every kept row, both
      operands present, a nonzero base, and the percent change at that row
      (which `PctChange` relates to the operands). */
  lemma DropNaGrowth(t: Frame, dst: string, c: seq<Cell>)
    requires WellFormed(t) && Get(t, dst) == Some(PctChange(c, Periods))
    ensures var r := DropNa(t); var rows := Kept(RowMask(t));
      && Get(r, dst).Some? && |Get(r, dst).value| == |rows|
      && forall j :: 0 <= j < |rows| ==>
           && Periods <= rows[j] < |c| && c[rows[j]].Some? && c[rows[j] - Periods].Some?
           && c[rows[j] - Periods].value != 0.0
           && Get(r, dst).value[j] == PctChange(c, Periods)[rows[j]] && Get(r, dst).value[j].Some?
  {
    var rows := Kept(RowMask(t));
    DropNaGet(t, dst);
    DropNaRows(t);
    forall j | 0 <= j < |rows| ensures PctChange(c, Periods)[rows[j]].Some? {
      assert rows[j] in rows;
      CompleteRowCell(t, dst, rows[j]);
    }
  }

  /** At the kept rows `rows` of `r`, column `name` is the difference of
      the present operands `a` and `b`, and column `aName` holds `a`. */
  ghost predicate DifferenceAt(r: Frame, rows: seq<nat>, name: string, aName: string, a: seq<Cell>, b: seq<Cell>) {
    && Get(r, name).Some? && Get(r, aName).Some?
    && |Get(r, name).value| == |rows| && |Get(r, aName).value| == |rows|
    && forall j :: 0 <= j < |rows| ==>
         && rows[j] < |a| && rows[j] < |b| && a[rows[j]].Some? && b[rows[j]].Some?
         && Get(r, name).value[j] == Some(a[rows[j]].value - b[rows[j]].value)
         && Get(r, aName).value[j] == a[rows[j]]
  }

  /** After `dropna`, a difference column is, at every kept row, the
      difference of its two present operands, and the first operand's
      column holds the first operand. */
  lemma DropNaSpread(t: Frame, name: string, aName: string, a: seq<Cell>, b: seq<Cell>)
    requires WellFormed(t) && |a| == |b|
    requires Get(t, name) == Some(Spread(a, b)) && Get(t, aName) == Some(a)
    ensures DifferenceAt(DropNa(t), Kept(RowMask(t)), name, aName, a, b)
  {
    var rows := Kept(RowMask(t));
    DropNaGet(t, name);
    DropNaGet(t, aName);
    DropNaRows(t);
    forall j | 0 <= j < |rows| ensures Spread(a, b)[rows[j]].Some? {
      assert rows[j] in rows;
      CompleteRowCell(t, name, rows[j]);
    }
  }
}
