/** Calendar dates as Python's `datetime.date` has them (years 1 to 9999,
    proleptic Gregorian), the one-day step `d + timedelta(days=1)`, and the
    `YYYY-MM-DD` text form under which prices are stored and compared. */
module Dates {
  import opened Wrappers

  datatype Date = Date(year: int, month: int, day: int)

  const MinYear := 1
  const MaxYear := 9999

  predicate IsLeapYear(y: int) {
    y % 4 == 0 && (y % 100 != 0 || y % 400 == 0)
  }

  function DaysInMonth(y: int, m: int): (n: int)
    requires 1 <= m <= 12
    ensures 28 <= n <= 31
    ensures n == 29 <==> m == 2 && IsLeapYear(y)
  {
    if m == 2 then (if IsLeapYear(y) then 29 else 28)
    else if m == 4 || m == 6 || m == 9 || m == 11 then 30
    else 31
  }

  predicate IsValid(d: Date) {
    && MinYear <= d.year <= MaxYear
    && 1 <= d.month <= 12
    && 1 <= d.day <= DaysInMonth(d.year, d.month)
  }

  /** A date Python can represent. */
  type CalendarDate = d: Date | IsValid(d) witness Date(2002, 1, 1)

  /** `datetime.date.max`: the one date that has no successor. */
  const LastDate: CalendarDate := Date(MaxYear, 12, 31)

  /** Chronological order. */
  predicate Before(a: Date, b: Date) {
    || a.year < b.year
    || (a.year == b.year && a.month < b.month)
    || (a.year == b.year && a.month == b.month && a.day < b.day)
  }

  lemma BeforeTotal(a: Date, b: Date)
    ensures a == b || Before(a, b) || Before(b, a)
    ensures !(Before(a, b) && Before(b, a))
  {
  }

  /** `d + timedelta(days=1)`; `None` is the OverflowError Python raises
      past `date.max`. */
  function NextDay(d: CalendarDate): (r: Option<CalendarDate>)
    ensures r.None? <==> d == LastDate
    ensures r.Some? ==> Before(d, r.value)
  {
    if d.day < DaysInMonth(d.year, d.month) then Some(Date(d.year, d.month, d.day + 1))
    else if d.month < 12 then Some(Date(d.year, d.month + 1, 1))
    else if d.year < MaxYear then Some(Date(d.year + 1, 1, 1))
    else None
  }

  /** The successor of `d` is the very next valid date: no valid date lies
      strictly between them. */
  lemma NextDayIsSuccessor(d: CalendarDate, e: Date)
    requires NextDay(d).Some? && IsValid(e)
    ensures Before(d, e) <==> e == NextDay(d).value || Before(NextDay(d).value, e)
  {
  }

  // ---------------------------------------------------------------------
  // The `%Y-%m-%d` text form and Python's ordering of `str` values.

  function Pow10(w: nat): (p: nat)
    ensures p >= 1
  {
    if w == 0 then 1 else 10 * Pow10(w - 1)
  }

  function DigitChar(k: int): char
    requires 0 <= k < 10
  {
    (48 + k) as char
  }

  /** `n` written in decimal with exactly `w` digits, zero-padded on the left. */
  function Padded(n: nat, w: nat): (s: string)
    ensures |s| == w
  {
    if w == 0 then [] else Padded(n / 10, w - 1) + [DigitChar(n % 10)]
  }

  /** `d.strftime('%Y-%m-%d')`. */
  function Format(d: CalendarDate): (s: string)
    ensures |s| == 10 && s[4] == '-' && s[7] == '-'
  {
    Padded(d.year, 4) + (['-'] + (Padded(d.month, 2) + (['-'] + Padded(d.day, 2))))
  }

  /** Python's `a < b` on `str`: code point by code point, a proper prefix
      being smaller. */
  predicate StrLess(a: string, b: string) {
    if |a| == 0 then |b| > 0
    else if |b| == 0 then false
    else if a[0] != b[0] then a[0] < b[0]
    else StrLess(a[1..], b[1..])
  }

  /** Comparing two strings whose first parts have equal length: the first
      parts decide unless they are equal. */
  lemma {:induction false} StrLessAppend(p1: string, p2: string, s1: string, s2: string)
    requires |p1| == |p2|
    ensures StrLess(p1 + s1, p2 + s2) == if p1 == p2 then StrLess(s1, s2) else StrLess(p1, p2)
  {
    if |p1| == 0 {
      assert p1 + s1 == s1 && p2 + s2 == s2;
    } else {
      assert (p1 + s1)[0] == p1[0] && (p2 + s2)[0] == p2[0];
      assert (p1 + s1)[1..] == p1[1..] + s1 && (p2 + s2)[1..] == p2[1..] + s2;
      if p1[0] == p2[0] {
        StrLessAppend(p1[1..], p2[1..], s1, s2);
        assert p1 == [p1[0]] + p1[1..] && p2 == [p2[0]] + p2[1..];
      }
    }
  }

  /** Zero-padded decimal numbers of one width compare as text exactly as
      they compare as numbers. */
  lemma {:induction false} PaddedOrder(n: nat, m: nat, w: nat)
    requires n < Pow10(w) && m < Pow10(w)
    ensures Padded(n, w) == Padded(m, w) <==> n == m
    ensures StrLess(Padded(n, w), Padded(m, w)) <==> n < m
  {
    if w == 0 {
    } else {
      var pn, pm := Padded(n / 10, w - 1), Padded(m / 10, w - 1);
      var cn, cm := DigitChar(n % 10), DigitChar(m % 10);
      PaddedOrder(n / 10, m / 10, w - 1);
      StrLessAppend(pn, pm, [cn], [cm]);
      assert (pn + [cn])[..w - 1] == pn && (pm + [cm])[..w - 1] == pm;
      assert (pn + [cn])[w - 1] == cn && (pm + [cm])[w - 1] == cm;
      assert StrLess([cn], [cm]) <==> n % 10 < m % 10 by {
        assert [cn][1..] == [] && [cm][1..] == [];
      }
    }
  }

  lemma Widths()
    ensures Pow10(2) == 100 && Pow10(4) == 10000
  {
    assert Pow10(1) == 10;
    assert Pow10(3) == 1000;
  }

  /** The text comparison on line 45 is chronological: between two valid
      dates, `Format(a) < Format(b)` holds exactly when `a` comes first. */
  lemma FormatOrder(a: CalendarDate, b: CalendarDate)
    ensures StrLess(Format(a), Format(b)) <==> Before(a, b)
    ensures Format(a) == Format(b) <==> a == b
  {
    Widths();
    var ya, yb := Padded(a.year, 4), Padded(b.year, 4);
    var ma, mb := Padded(a.month, 2), Padded(b.month, 2);
    var da, db := Padded(a.day, 2), Padded(b.day, 2);
    var dayA, dayB := ['-'] + da, ['-'] + db;
    var monthA, monthB := ma + dayA, mb + dayB;
    var restA, restB := ['-'] + monthA, ['-'] + monthB;
    PaddedOrder(a.year, b.year, 4);
    PaddedOrder(a.month, b.month, 2);
    PaddedOrder(a.day, b.day, 2);
    StrLessAppend(ya, yb, restA, restB);
    StrLessAppend(['-'], ['-'], monthA, monthB);
    StrLessAppend(ma, mb, dayA, dayB);
    StrLessAppend(['-'], ['-'], da, db);
    SplitEq(ya, yb, restA, restB);
    SplitEq(['-'], ['-'], monthA, monthB);
    SplitEq(ma, mb, dayA, dayB);
    SplitEq(['-'], ['-'], da, db);
  }

  lemma SplitEq<T>(p1: seq<T>, p2: seq<T>, s1: seq<T>, s2: seq<T>)
    requires |p1| == |p2|
    ensures p1 + s1 == p2 + s2 <==> p1 == p2 && s1 == s2
  {
    if p1 + s1 == p2 + s2 {
      assert p1 == (p1 + s1)[..|p1|] && p2 == (p2 + s2)[..|p2|];
      assert s1 == (p1 + s1)[|p1|..] && s2 == (p2 + s2)[|p2|..];
    }
  }
}
