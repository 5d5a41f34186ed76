/** The `daily_prices` table and the incremental price update that walks the
    securities, resumes each one after its watermark and inserts the new
    bars with `INSERT OR IGNORE`. */
module PriceStore {
  import opened Wrappers
  import opened Dates
  import opened PriceRows

  /** Table contents: one row per natural key. */
  type Rows = map<Key, PriceRow>

  /** Each row is stored under its own `(security_id, price_date)`. */
  ghost predicate WellKeyed(rows: Rows) {
    forall k :: k in rows ==> KeyOf(rows[k]) == k
  }

  /** No two stored rows share a natural key. */
  lemma WellKeyedNoDuplicates(rows: Rows)
    requires WellKeyed(rows)
    ensures forall k1, k2 :: k1 in rows && k2 in rows && k1 != k2 ==> KeyOf(rows[k1]) != KeyOf(rows[k2])
  {
  }

  // ---------------------------------------------------------------------
  // INSERT OR IGNORE, one row and a whole `executemany` batch.

  function InsertOne(rows: Rows, row: PriceRow): Rows {
    if KeyOf(row) in rows then rows else rows[KeyOf(row) := row]
  }

  /** The table after `executemany` of `batch`, row after row. */
  function InsertAll(rows: Rows, batch: seq<PriceRow>): Rows {
    if batch == [] then rows
    else InsertOne(InsertAll(rows, batch[..|batch| - 1]), batch[|batch| - 1])
  }

  /** Rows already present are never overwritten or removed. */
  lemma {:induction false} InsertAllKeeps(rows: Rows, batch: seq<PriceRow>)
    ensures forall k :: k in rows ==> k in InsertAll(rows, batch) && InsertAll(rows, batch)[k] == rows[k]
  {
    if batch != [] {
      InsertAllKeeps(rows, batch[..|batch| - 1]);
    }
  }

  /** The keys afterwards are the old keys and the keys of the batch. */
  lemma {:induction false} InsertAllKeys(rows: Rows, batch: seq<PriceRow>)
    ensures forall k :: k in InsertAll(rows, batch) <==>
      k in rows || exists j :: 0 <= j < |batch| && KeyOf(batch[j]) == k
  {
    if batch != [] {
      var n := |batch| - 1;
      InsertAllKeys(rows, batch[..n]);
      forall k | exists j :: 0 <= j < |batch| && KeyOf(batch[j]) == k
        ensures k in InsertAll(rows, batch)
      {
        var j :| 0 <= j < |batch| && KeyOf(batch[j]) == k;
        if j < n {
          assert KeyOf(batch[..n][j]) == k;
        }
      }
      forall k | k in InsertAll(rows, batch) && k !in rows
        ensures exists j :: 0 <= j < |batch| && KeyOf(batch[j]) == k
      {
        if k in InsertAll(rows, batch[..n]) {
          var j :| 0 <= j < n && KeyOf(batch[..n][j]) == k;
          assert KeyOf(batch[j]) == k;
        } else {
          assert KeyOf(batch[n]) == k;
        }
      }
    }
  }

  /** A row that was absent before comes from the batch: it is the first
      row of the batch with that key (later duplicates are ignored). */
  lemma {:induction false} InsertAllNew(rows: Rows, batch: seq<PriceRow>)
    ensures forall k :: k in InsertAll(rows, batch) && k !in rows ==>
      exists j :: 0 <= j < |batch| && InsertAll(rows, batch)[k] == batch[j] &&
        KeyOf(batch[j]) == k && forall i :: 0 <= i < j ==> KeyOf(batch[i]) != k
  {
    if batch != [] {
      var n := |batch| - 1;
      var front := InsertAll(rows, batch[..n]);
      InsertAllNew(rows, batch[..n]);
      InsertAllKeys(rows, batch[..n]);
      forall k | k in InsertAll(rows, batch) && k !in rows
        ensures exists j :: (0 <= j < |batch| && InsertAll(rows, batch)[k] == batch[j] &&
                             KeyOf(batch[j]) == k && forall i :: 0 <= i < j ==> KeyOf(batch[i]) != k)
      {
        if k in front {
          var j :| 0 <= j < n && front[k] == batch[..n][j] &&
            KeyOf(batch[..n][j]) == k && forall i :: 0 <= i < j ==> KeyOf(batch[..n][i]) != k;
          assert InsertAll(rows, batch)[k] == batch[j];
          forall i | 0 <= i < j ensures KeyOf(batch[i]) != k {
            assert batch[i] == batch[..n][i];
          }
        } else {
          assert InsertAll(rows, batch)[k] == batch[n] && KeyOf(batch[n]) == k;
          forall i | 0 <= i < n ensures KeyOf(batch[i]) != k {
            assert batch[i] == batch[..n][i];
          }
        }
      }
    }
  }

  /** Insert-or-ignore keeps every row under its own key. */
  lemma {:induction false} InsertAllWellKeyed(rows: Rows, batch: seq<PriceRow>)
    requires WellKeyed(rows)
    ensures WellKeyed(InsertAll(rows, batch))
  {
    if batch != [] {
      InsertAllWellKeyed(rows, batch[..|batch| - 1]);
    }
  }

  /** A batch whose keys are all present changes nothing. */
  lemma {:induction false} InsertAllPresent(rows: Rows, batch: seq<PriceRow>)
    requires forall j :: 0 <= j < |batch| ==> KeyOf(batch[j]) in rows
    ensures InsertAll(rows, batch) == rows
  {
    if batch != [] {
      var n := |batch| - 1;
      assert forall j :: 0 <= j < n ==> batch[..n][j] == batch[j];
      InsertAllPresent(rows, batch[..n]);
    }
  }

  /** Inserting the same batch a second time leaves the table unchanged. */
  lemma InsertAllIdempotent(rows: Rows, batch: seq<PriceRow>)
    ensures InsertAll(InsertAll(rows, batch), batch) == InsertAll(rows, batch)
  {
    InsertAllKeys(rows, batch);
    InsertAllPresent(InsertAll(rows, batch), batch);
  }

  // ---------------------------------------------------------------------
  // The watermark `SELECT MAX(price_date) FROM daily_prices WHERE security_id = ?`.

  /** `d` is a stored date of security `id` and no stored date of it is later. */
  ghost predicate IsWatermark(rows: Rows, id: int, d: CalendarDate) {
    && (id, d) in rows
    && forall k :: k in rows && k.0 == id ==> !Before(d, k.1)
  }

  ghost predicate HasRows(rows: Rows, id: int) {
    exists k :: k in rows && k.0 == id
  }

  /** The stored dates of security `id`. */
  ghost function StoredDates(rows: Rows, id: int): set<CalendarDate> {
    set k | k in rows && k.0 == id :: k.1
  }

  /** A finite non-empty set of dates has a latest element. */
  lemma {:induction false} LatestExists(ds: set<CalendarDate>)
    requires ds != {}
    ensures exists d :: d in ds && forall e :: e in ds ==> !Before(d, e)
    decreases ds
  {
    var x :| x in ds;
    var rest := ds - {x};
    if rest != {} {
      LatestExists(rest);
      var m :| m in rest && forall e :: e in rest ==> !Before(m, e);
      if Before(m, x) {
        forall e | e in ds ensures !Before(x, e) {
          if e != x {
            BeforeTotal(m, e);
          }
        }
      } else {
        BeforeTotal(m, x);
        assert forall e :: e in ds ==> !Before(m, e);
      }
    } else {
      assert ds == {x};
    }
  }

  lemma WatermarkExists(rows: Rows, id: int)
    requires HasRows(rows, id)
    ensures exists d :: IsWatermark(rows, id, d)
  {
    var ds := StoredDates(rows, id);
    var k :| k in rows && k.0 == id;
    assert k.1 in ds;
    LatestExists(ds);
    var d :| d in ds && forall e :: e in ds ==> !Before(d, e);
    forall k | k in rows && k.0 == id ensures !Before(d, k.1) {
      assert k.1 in ds;
    }
    assert IsWatermark(rows, id, d);
  }

  lemma WatermarkUnique(rows: Rows, id: int, d1: CalendarDate, d2: CalendarDate)
    requires IsWatermark(rows, id, d1) && IsWatermark(rows, id, d2)
    ensures d1 == d2
  {
    BeforeTotal(d1, d2);
  }

  /** `MAX(price_date)` for `id`: `None` (SQL NULL) when it has no rows.
      SQLite compares the stored `YYYY-MM-DD` text; by `FormatOrder` that is
      the chronological maximum taken here. */
  ghost function Watermark(rows: Rows, id: int): (w: Option<CalendarDate>)
    ensures w.None? <==> !HasRows(rows, id)
    ensures w.Some? ==> IsWatermark(rows, id, w.value)
  {
    if HasRows(rows, id) then
      WatermarkExists(rows, id);
      var d :| IsWatermark(rows, id, d);
      Some(d)
    else
      None
  }

  // ---------------------------------------------------------------------
  // One security, and the loop over all of them.

  /** The price provider: `yf.download(ticker, start=...)`. `None` is a call
      that raised. */
  type Provider = (string, CalendarDate) -> Option<seq<Bar>>

  /** Lines 34-65 for one security: the new table, or `None` when an
      exception escaped. */
  ghost function Step(rows: Rows, s: Security, today: CalendarDate, fetch: Provider): Option<Rows> {
    var start :- StartDate(Watermark(rows, s.id));
    if ShouldSkip(start, today) then Some(rows)
    else
      var bars :- fetch(s.ticker, start);
      if bars == [] then Some(rows)
      else Some(InsertAll(rows, Batch(bars, s.id)))
  }

  datatype RunStatus = Completed | Aborted(at: nat)

  datatype RunResult = RunResult(rows: Rows, status: RunStatus)

  /** Lines 29-67: the securities in order; the first exception ends the
      loop (the `try` encloses the whole loop), and what was committed for
      the securities before it stays. */
  ghost function Run(rows: Rows, securities: seq<Security>, today: CalendarDate, fetch: Provider): RunResult
    decreases |securities|
  {
    if securities == [] then RunResult(rows, Completed)
    else
      var n := |securities| - 1;
      var before := Run(rows, securities[..n], today, fetch);
      if before.status.Aborted? then before
      else match Step(before.rows, securities[n], today, fetch)
        case None => RunResult(before.rows, Aborted(n))
        case Some(after) => RunResult(after, Completed)
  }

  /** A step keeps every row under its own key. */
  lemma StepWellKeyed(rows: Rows, s: Security, today: CalendarDate, fetch: Provider)
    requires WellKeyed(rows) && Step(rows, s, today, fetch).Some?
    ensures WellKeyed(Step(rows, s, today, fetch).value)
  {
    var start := StartDate(Watermark(rows, s.id));
    if start.Some? && !ShouldSkip(start.value, today) && fetch(s.ticker, start.value).Some? {
      InsertAllWellKeyed(rows, Batch(fetch(s.ticker, start.value).value, s.id));
    }
  }

  /** A step only appends: every old row is still there, unchanged, and
      every new row belongs to the security being processed and is a fetched
      bar that passed the filter. */
  lemma StepAppends(rows: Rows, s: Security, today: CalendarDate, fetch: Provider)
    requires Step(rows, s, today, fetch).Some?
    ensures var after := Step(rows, s, today, fetch).value;
      && (forall k :: k in rows ==> k in after && after[k] == rows[k])
      && (forall k :: k in after && k !in rows ==> k.0 == s.id && after[k].securityId == s.id && KeepBar(BarOf(after[k])))
  {
    var start := StartDate(Watermark(rows, s.id));
    if start.Some? && !ShouldSkip(start.value, today) && fetch(s.ticker, start.value).Some? {
      var batch := Batch(fetch(s.ticker, start.value).value, s.id);
      InsertAllKeeps(rows, batch);
      InsertAllNew(rows, batch);
      BatchSound(fetch(s.ticker, start.value).value, s.id);
      forall k | k in InsertAll(rows, batch) && k !in rows
        ensures k.0 == s.id && InsertAll(rows, batch)[k].securityId == s.id && KeepBar(BarOf(InsertAll(rows, batch)[k]))
      {
        var j :| 0 <= j < |batch| && InsertAll(rows, batch)[k] == batch[j] && KeyOf(batch[j]) == k &&
          forall i :: 0 <= i < j ==> KeyOf(batch[i]) != k;
        assert batch[j] in batch;
      }
    }
  }

  /** A step that fetches stores every fetched bar that passes the filter:
      afterwards the table has a row of this security at that bar's date. */
  lemma StepInserts(rows: Rows, s: Security, today: CalendarDate, fetch: Provider)
    requires StartDate(Watermark(rows, s.id)).Some?
    requires !ShouldSkip(StartDate(Watermark(rows, s.id)).value, today)
    requires fetch(s.ticker, StartDate(Watermark(rows, s.id)).value).Some?
    ensures Step(rows, s, today, fetch).Some?
    ensures forall b :: b in fetch(s.ticker, StartDate(Watermark(rows, s.id)).value).value && KeepBar(b) ==>
      (s.id, b.date) in Step(rows, s, today, fetch).value
  {
    var bars := fetch(s.ticker, StartDate(Watermark(rows, s.id)).value).value;
    var batch := Batch(bars, s.id);
    BatchComplete(bars, s.id);
    InsertAllKeys(rows, batch);
    forall b | b in bars && KeepBar(b) ensures (s.id, b.date) in InsertAll(rows, batch) {
      var j :| 0 <= j < |batch| && batch[j] == ToRow(b, s.id);
      assert KeyOf(batch[j]) == (s.id, b.date);
    }
  }

  /** A skipped security is not fetched: the step is the same whatever the
      provider would answer, and leaves the table as it is. */
  lemma SkipIgnoresProvider(rows: Rows, s: Security, today: CalendarDate, fetch1: Provider, fetch2: Provider)
    requires StartDate(Watermark(rows, s.id)).Some?
    requires ShouldSkip(StartDate(Watermark(rows, s.id)).value, today)
    ensures Step(rows, s, today, fetch1) == Step(rows, s, today, fetch2) == Some(rows)
  {
  }

  /** With no stored rows the fetch starts at the floor; with stored rows it
      starts the day after the latest stored date. */
  lemma StepFetchesFrom(rows: Rows, s: Security, today: CalendarDate, fetch: Provider)
    requires Step(rows, s, today, fetch).Some? && Step(rows, s, today, fetch) != Some(rows)
    ensures !HasRows(rows, s.id) ==> StartDate(Watermark(rows, s.id)) == Some(Floor)
    ensures HasRows(rows, s.id) ==> exists last: CalendarDate ::
      IsWatermark(rows, s.id, last) && StartDate(Watermark(rows, s.id)) == NextDay(last)
    ensures StartDate(Watermark(rows, s.id)).Some? && Before(StartDate(Watermark(rows, s.id)).value, today)
  {
    ShouldSkipIsChronological(StartDate(Watermark(rows, s.id)).value, today);
  }

  /** At the step's own start the provider has nothing new for `s`: the
      security is skipped, or every fetched bar that passes the filter is
      already stored for `s`. */
  ghost predicate NothingNew(rows: Rows, s: Security, today: CalendarDate, fetch: Provider) {
    match StartDate(Watermark(rows, s.id))
    case None => true
    case Some(start) =>
      || ShouldSkip(start, today)
      || fetch(s.ticker, start).None?
      || forall b :: b in fetch(s.ticker, start).value && KeepBar(b) ==> (s.id, b.date) in rows
  }

  /** A provider with nothing new to offer leaves the table unchanged. */
  lemma StepNoNewData(rows: Rows, s: Security, today: CalendarDate, fetch: Provider)
    requires NothingNew(rows, s, today, fetch)
    requires Step(rows, s, today, fetch).Some?
    ensures Step(rows, s, today, fetch) == Some(rows)
  {
    var start := StartDate(Watermark(rows, s.id));
    if start.Some? && !ShouldSkip(start.value, today) && fetch(s.ticker, start.value).Some? {
      var bars := fetch(s.ticker, start.value).value;
      var batch := Batch(bars, s.id);
      BatchSound(bars, s.id);
      forall j | 0 <= j < |batch| ensures KeyOf(batch[j]) in rows {
        assert batch[j] in batch;
        assert BarOf(batch[j]) in bars;
      }
      InsertAllPresent(rows, batch);
    }
  }

  /** The provider answers for `s` from one fixed history, as a second run
      on the same day sees it: a call returns only bars dated on or after its
      start, and a call from a later start returns no bar that a call from an
      earlier start does not. */
  ghost predicate FixedHistory(s: Security, fetch: Provider) {
    && (forall start: CalendarDate :: fetch(s.ticker, start).Some? ==>
          forall b :: b in fetch(s.ticker, start).value ==> !Before(b.date, start))
    && (forall early: CalendarDate, late: CalendarDate ::
          !Before(late, early) && fetch(s.ticker, early).Some? && fetch(s.ticker, late).Some? ==>
            forall b :: b in fetch(s.ticker, late).value ==> b in fetch(s.ticker, early).value)
  }

  /** A row that a step adds belongs to the security and is dated like a
      bar fetched from the step's start. */
  lemma StepNewKeys(rows: Rows, s: Security, today: CalendarDate, fetch: Provider)
    requires Step(rows, s, today, fetch).Some?
    ensures forall k :: k in Step(rows, s, today, fetch).value && k !in rows ==>
      && k.0 == s.id
      && StartDate(Watermark(rows, s.id)).Some?
      && fetch(s.ticker, StartDate(Watermark(rows, s.id)).value).Some?
      && exists b :: b in fetch(s.ticker, StartDate(Watermark(rows, s.id)).value).value && b.date == k.1
  {
    var start := StartDate(Watermark(rows, s.id));
    if start.Some? && !ShouldSkip(start.value, today) && fetch(s.ticker, start.value).Some? {
      var bars := fetch(s.ticker, start.value).value;
      var batch := Batch(bars, s.id);
      InsertAllKeys(rows, batch);
      BatchSound(bars, s.id);
      forall k | k in InsertAll(rows, batch) && k !in rows
        ensures k.0 == s.id && exists b :: b in bars && b.date == k.1
      {
        var j :| 0 <= j < |batch| && KeyOf(batch[j]) == k;
        assert batch[j] in batch;
        assert BarOf(batch[j]).date == k.1;
      }
    }
  }

  /** Two tables with the same keys for `id` have the same watermark. */
  lemma WatermarkSame(rows1: Rows, rows2: Rows, id: int)
    requires forall k: Key :: k.0 == id ==> (k in rows1 <==> k in rows2)
    ensures Watermark(rows1, id) == Watermark(rows2, id)
  {
    if HasRows(rows1, id) {
      var k :| k in rows1 && k.0 == id;
      assert k in rows2;
      var w1, w2 := Watermark(rows1, id).value, Watermark(rows2, id).value;
      assert IsWatermark(rows2, id, w1);
      WatermarkUnique(rows2, id, w1, w2);
    }
  }

  /** With a fixed history, a step never moves the security's start date
      backwards. */
  lemma StartNotEarlier(rows: Rows, s: Security, today: CalendarDate, fetch: Provider)
    requires FixedHistory(s, fetch) && Step(rows, s, today, fetch).Some?
    ensures StartDate(Watermark(rows, s.id)).Some?
    ensures var after := Step(rows, s, today, fetch).value;
      StartDate(Watermark(after, s.id)).Some? ==>
        !Before(StartDate(Watermark(after, s.id)).value, StartDate(Watermark(rows, s.id)).value)
  {
    var after := Step(rows, s, today, fetch).value;
    var start0 := StartDate(Watermark(rows, s.id)).value;
    StepAppends(rows, s, today, fetch);
    StepNewKeys(rows, s, today, fetch);
    if HasRows(after, s.id) && StartDate(Watermark(after, s.id)).Some? {
      var w1 := Watermark(after, s.id).value;
      var start1 := StartDate(Watermark(after, s.id)).value;
      assert w1 != LastDate && Before(w1, start1);
      if (s.id, w1) in rows {
        var w0 := Watermark(rows, s.id).value;
        assert !Before(w0, w1) && !Before(w1, w0);
        BeforeTotal(w0, w1);
      } else {
        var b :| b in fetch(s.ticker, start0).value && b.date == w1;
        assert !Before(w1, start0);
      }
    } else if !HasRows(after, s.id) {
      assert !HasRows(rows, s.id);
    }
  }

  /** With a fixed history, after a step the provider has nothing new for
      the security. */
  lemma StepLeavesNothingNew(rows: Rows, s: Security, today: CalendarDate, fetch: Provider)
    requires FixedHistory(s, fetch) && Step(rows, s, today, fetch).Some?
    ensures NothingNew(Step(rows, s, today, fetch).value, s, today, fetch)
  {
    var after := Step(rows, s, today, fetch).value;
    var start0 := StartDate(Watermark(rows, s.id)).value;
    StartNotEarlier(rows, s, today, fetch);
    if after == rows {
      if !ShouldSkip(start0, today) {
        var bars := fetch(s.ticker, start0).value;
        if bars != [] {
          StepInserts(rows, s, today, fetch);
        }
      }
    } else {
      var start1 := StartDate(Watermark(after, s.id));
      if start1.Some? && !ShouldSkip(start1.value, today) && fetch(s.ticker, start1.value).Some? {
        StepInserts(rows, s, today, fetch);
        forall b | b in fetch(s.ticker, start1.value).value && KeepBar(b) ensures (s.id, b.date) in after {
          assert b in fetch(s.ticker, start0).value;
        }
      }
    }
  }

  /** A step of another security keeps "nothing new" for `s`: it touches
      no row of `s`. */
  lemma OtherStepKeepsNothingNew(rows: Rows, s: Security, t: Security, today: CalendarDate, fetch: Provider)
    requires s.id != t.id && Step(rows, t, today, fetch).Some?
    requires NothingNew(rows, s, today, fetch)
    ensures NothingNew(Step(rows, t, today, fetch).value, s, today, fetch)
  {
    var after := Step(rows, t, today, fetch).value;
    StepAppends(rows, t, today, fetch);
    WatermarkSame(rows, after, s.id);
  }

  /** When the provider has nothing new for any security, a run leaves the
      table as it is, whether it completes or aborts. */
  lemma {:induction false} RunNoNewData(rows: Rows, securities: seq<Security>, today: CalendarDate, fetch: Provider)
    requires forall s :: s in securities ==> NothingNew(rows, s, today, fetch)
    ensures Run(rows, securities, today, fetch).rows == rows
    decreases |securities|
  {
    if securities != [] {
      var n := |securities| - 1;
      var done, last := securities[..n], securities[n];
      assert forall s :: s in done ==> s in securities;
      RunNoNewData(rows, done, today, fetch);
      RunRows(rows, securities, today, fetch);
      assert last in securities;
      if Step(rows, last, today, fetch).Some? {
        StepNoNewData(rows, last, today, fetch);
      }
    }
  }

  /** The securities carry distinct ids (`security_id` is the key of
      `securities_master`). */
  ghost predicate DistinctIds(securities: seq<Security>) {
    forall i, j :: 0 <= i < j < |securities| ==> securities[i].id != securities[j].id
  }

  /** After a completed run over securities with fixed histories, the
      provider has nothing new for any of them. */
  lemma {:induction false} RunLeavesNothingNew(rows: Rows, securities: seq<Security>, today: CalendarDate, fetch: Provider)
    requires DistinctIds(securities)
    requires forall s :: s in securities ==> FixedHistory(s, fetch)
    requires Run(rows, securities, today, fetch).status == Completed
    ensures forall s :: s in securities ==> NothingNew(Run(rows, securities, today, fetch).rows, s, today, fetch)
    decreases |securities|
  {
    if securities != [] {
      var n := |securities| - 1;
      var done, last := securities[..n], securities[n];
      var before := Run(rows, done, today, fetch);
      assert !before.status.Aborted?;
      assert forall s :: s in done ==> s in securities;
      RunLeavesNothingNew(rows, done, today, fetch);
      var after := Step(before.rows, last, today, fetch).value;
      assert last in securities;
      StepLeavesNothingNew(before.rows, last, today, fetch);
      forall s | s in securities ensures NothingNew(after, s, today, fetch) {
        if s != last {
          var i :| 0 <= i < |securities| && securities[i] == s;
          assert i < n && s in done;
          OtherStepKeepsNothingNew(before.rows, s, last, today, fetch);
        }
      }
    }
  }

  /** Running the update a second time on the same day, against providers
      that answer from the same fixed histories, adds no rows. */
  lemma SecondRunAddsNothing(rows: Rows, securities: seq<Security>, today: CalendarDate, fetch: Provider)
    requires DistinctIds(securities)
    requires forall s :: s in securities ==> FixedHistory(s, fetch)
    requires Run(rows, securities, today, fetch).status == Completed
    ensures var first := Run(rows, securities, today, fetch).rows;
      Run(first, securities, today, fetch).rows == first
  {
    RunLeavesNothingNew(rows, securities, today, fetch);
    RunNoNewData(Run(rows, securities, today, fetch).rows, securities, today, fetch);
  }

  /** Once the loop has aborted, later securities change nothing. */
  lemma {:induction false} AbortPersists(rows: Rows, done: seq<Security>, rest: seq<Security>, today: CalendarDate, fetch: Provider)
    requires Run(rows, done, today, fetch).status.Aborted?
    ensures Run(rows, done + rest, today, fetch) == Run(rows, done, today, fetch)
    decreases |rest|
  {
    if rest == [] {
      assert done + rest == done;
    } else {
      var m := |rest| - 1;
      AbortPersists(rows, done, rest[..m], today, fetch);
      assert (done + rest)[..|done + rest| - 1] == done + rest[..m];
    }
  }

  /** The whole run only appends to the table and keeps it well keyed. */
  lemma {:induction false} RunAppends(rows: Rows, securities: seq<Security>, today: CalendarDate, fetch: Provider)
    requires WellKeyed(rows)
    ensures var after := Run(rows, securities, today, fetch).rows;
      && WellKeyed(after)
      && forall k :: k in rows ==> k in after && after[k] == rows[k]
    decreases |securities|
  {
    if securities != [] {
      var n := |securities| - 1;
      var before := Run(rows, securities[..n], today, fetch);
      RunAppends(rows, securities[..n], today, fetch);
      if !before.status.Aborted? && Step(before.rows, securities[n], today, fetch).Some? {
        StepWellKeyed(before.rows, securities[n], today, fetch);
        StepAppends(before.rows, securities[n], today, fetch);
      }
    }
  }

  /** There is no per-security recovery: an abort at position `k` means the
      securities before `k` ran normally, the one at `k` raised, and the
      table is what it was after the first `k`. */
  lemma {:induction false} RunAbortedAt(rows: Rows, securities: seq<Security>, today: CalendarDate, fetch: Provider)
    requires Run(rows, securities, today, fetch).status.Aborted?
    ensures var k := Run(rows, securities, today, fetch).status.at;
      && k < |securities|
      && Run(rows, securities[..k], today, fetch).status == Completed
      && Step(Run(rows, securities[..k], today, fetch).rows, securities[k], today, fetch).None?
      && Run(rows, securities, today, fetch).rows == Run(rows, securities[..k], today, fetch).rows
    decreases |securities|
  {
    var n := |securities| - 1;
    var before := Run(rows, securities[..n], today, fetch);
    if before.status.Aborted? {
      RunAbortedAt(rows, securities[..n], today, fetch);
      var k := before.status.at;
      assert securities[..n][..k] == securities[..k];
      assert securities[..n][k] == securities[k];
    }
  }

  /** The latest stored date of `id` is today or later (and is not the last
      representable date, whose successor would overflow). */
  ghost predicate IsCurrent(rows: Rows, id: int, today: CalendarDate) {
    exists last: CalendarDate :: IsWatermark(rows, id, last) && last != LastDate && !Before(last, today)
  }

  /** When every security is already current the update fetches nothing
      and changes nothing. */
  lemma {:induction false} RunWhenCurrent(rows: Rows, securities: seq<Security>, today: CalendarDate, fetch: Provider)
    requires forall s :: s in securities ==> IsCurrent(rows, s.id, today)
    ensures Run(rows, securities, today, fetch) == RunResult(rows, Completed)
    decreases |securities|
  {
    if securities != [] {
      var n := |securities| - 1;
      assert forall s :: s in securities[..n] ==> s in securities;
      RunWhenCurrent(rows, securities[..n], today, fetch);
      var s := securities[n];
      assert IsCurrent(rows, s.id, today);
      var last: CalendarDate :| IsWatermark(rows, s.id, last) && last != LastDate && !Before(last, today);
      WatermarkUnique(rows, s.id, last, Watermark(rows, s.id).value);
      CurrentIsSkipped(last, today);
    }
  }

  /** The table after a run over at least one security: the one after the
      run over all but the last, changed by the last step if that ran and
      succeeded. */
  lemma RunRows(rows: Rows, securities: seq<Security>, today: CalendarDate, fetch: Provider)
    requires securities != []
    ensures var n := |securities| - 1; var before := Run(rows, securities[..n], today, fetch);
      var step := Step(before.rows, securities[n], today, fetch);
      Run(rows, securities, today, fetch).rows ==
        if before.status.Aborted? || step.None? then before.rows else step.value
  {
  }

  /** The run over one more security, when the run so far completed. */
  lemma RunSnoc(rows: Rows, securities: seq<Security>, i: nat, today: CalendarDate, fetch: Provider, current: Rows)
    requires i < |securities|
    requires Run(rows, securities[..i], today, fetch) == RunResult(current, Completed)
    ensures Run(rows, securities[..i + 1], today, fetch) ==
      match Step(current, securities[i], today, fetch)
      case None => RunResult(current, Aborted(i))
      case Some(after) => RunResult(after, Completed)
  {
    assert securities[..i + 1][..i] == securities[..i];
    assert securities[..i + 1][i] == securities[i];
  }

  /** When the security at position `i` raises after a normal run over the
      ones before it, the whole run stops there with the table as it was. */
  lemma RunStopsAt(rows: Rows, securities: seq<Security>, i: nat, today: CalendarDate, fetch: Provider, current: Rows)
    requires i < |securities|
    requires Run(rows, securities[..i], today, fetch) == RunResult(current, Completed)
    requires Step(current, securities[i], today, fetch).None?
    ensures Run(rows, securities, today, fetch) == RunResult(current, Aborted(i))
  {
    var done, rest := securities[..i + 1], securities[i + 1..];
    assert done + rest == securities;
    RunSnoc(rows, securities, i, today, fetch, current);
    assert Run(rows, done, today, fetch) == RunResult(current, Aborted(i));
    AbortPersists(rows, done, rest, today, fetch);
  }

  // ---------------------------------------------------------------------
  // The table as the updater changes it.

  class PriceTable {
    var rows: Rows

    ghost predicate Valid()
      reads this
    {
      WellKeyed(rows)
    }

    constructor (initial: Rows)
      requires WellKeyed(initial)
      ensures Valid() && rows == initial
    {
      rows := initial;
    }

    /** Line 36: the latest stored date of security `id`, by a scan of the
        stored keys. */
    method MaxPriceDate(id: int) returns (w: Option<CalendarDate>)
      ensures w == Watermark(rows, id)
    {
      w := None;
      var pending := rows.Keys;
      while pending != {}
        invariant pending <= rows.Keys
        invariant w.None? ==> forall k :: k in rows.Keys - pending ==> k.0 != id
        invariant w.Some? ==> (id, w.value) in rows.Keys - pending
        invariant w.Some? ==> forall k :: k in rows.Keys - pending && k.0 == id ==> !Before(w.value, k.1)
        decreases pending
      {
        var k :| k in pending;
        if k.0 == id && (w.None? || Before(w.value, k.1)) {
          assert (id, k.1) == k;
          w := Some(k.1);
        }
        pending := pending - {k};
      }
      if w.Some? {
        WatermarkUnique(rows, id, w.value, Watermark(rows, id).value);
      }
    }

    /** Lines 63-64: `executemany` of `INSERT OR IGNORE`, one row at a time. */
    method InsertOrIgnore(batch: seq<PriceRow>)
      requires Valid()
      modifies this
      ensures Valid()
      ensures rows == InsertAll(old(rows), batch)
    {
      var i := 0;
      while i < |batch|
        invariant 0 <= i <= |batch|
        invariant rows == InsertAll(old(rows), batch[..i])
        invariant Valid()
      {
        var row := batch[i];
        if KeyOf(row) !in rows {
          rows := rows[KeyOf(row) := row];
        }
        assert batch[..i + 1][..i] == batch[..i];
        i := i + 1;
      }
      assert batch[..i] == batch;
    }

    /** Lines 34-65: one security, committed on success. `ok` is false when
        an exception escaped; the table is then unchanged. */
    method UpdateSecurity(security: Security, today: CalendarDate, fetch: Provider) returns (ok: bool)
      requires Valid()
      modifies this
      ensures Valid()
      ensures ok ==> Step(old(rows), security, today, fetch) == Some(rows)
      ensures !ok ==> Step(old(rows), security, today, fetch).None? && rows == old(rows)
    {
      var watermark := MaxPriceDate(security.id);
      var start := StartDate(watermark);
      if start.None? {
        return false;
      }
      if ShouldSkip(start.value, today) {
        return true;
      }
      var fetched := fetch(security.ticker, start.value);
      if fetched.None? {
        return false;
      }
      if fetched.value != [] {
        InsertOrIgnore(Batch(fetched.value, security.id));
      }
      return true;
    }

    /** Lines 29-67: the incremental update over all securities. */
    method UpdateDailyPrices(securities: seq<Security>, today: CalendarDate, fetch: Provider)
      returns (status: RunStatus)
      requires Valid()
      modifies this
      ensures Valid()
      ensures RunResult(rows, status) == Run(old(rows), securities, today, fetch)
    {
      var i := 0;
      assert securities[..0] == [];
      while i < |securities|
        invariant 0 <= i <= |securities|
        invariant Valid()
        invariant Run(old(rows), securities[..i], today, fetch) == RunResult(rows, Completed)
      {
        ghost var current := rows;
        var ok := UpdateSecurity(securities[i], today, fetch);
        if !ok {
          RunStopsAt(old(rows), securities, i, today, fetch, current);
          status := Aborted(i);
          return;
        }
        RunSnoc(old(rows), securities, i, today, fetch, current);
        i := i + 1;
      }
      status := Completed;
      assert securities[..i] == securities;
    }
  }
}
