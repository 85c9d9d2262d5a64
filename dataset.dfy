/** The loaded table (app.py lines 9-16): observations with a parsed date,
    the Year/Month/Day columns derived from it in place, and the sorted list
    of distinct countries offered by the dropdown. */
module Dataset {
  import opened Seqs

  // ---------------------------------------------------------------------
  // Calendar dates, as `pd.to_datetime` produces them

  datatype Date = Date(year: int, month: int, day: int)

  predicate IsLeapYear(y: int) {
    (y % 4 == 0 && y % 100 != 0) || y % 400 == 0
  }

  function DaysInMonth(y: int, m: int): int
    requires 1 <= m <= 12
  {
    if m == 2 then (if IsLeapYear(y) then 29 else 28)
    else if m == 4 || m == 6 || m == 9 || m == 11 then 30
    else 31
  }

  /** A real calendar day of the proleptic Gregorian calendar. */
  predicate ValidDate(d: Date) {
    1 <= d.month <= 12 && 1 <= d.day <= DaysInMonth(d.year, d.month)
  }

  /** Chronological order: by year, then month, then day. */
  predicate DateLess(a: Date, b: Date) {
    a.year < b.year
    || (a.year == b.year && (a.month < b.month || (a.month == b.month && a.day < b.day)))
  }

  /** Chronological order is total on dates: only equal dates tie. */
  lemma DateLessIsStrictTotalOrder()
    ensures StrictTotalOrder(DateLess)
  {
  }

  // ---------------------------------------------------------------------
  // Rows

  /** One observation. `year`, `month` and `day` are the derived columns:
      they carry meaning once `Frame.AddCalendarColumns` has run (for `day`,
      also when the file had a Day column of its own). */
  datatype Row = Row(area: string, category: string, variable: string, date: Date,
                     value: real, year: int, month: int, day: int)

  /** The Area column. */
  function Areas(rows: seq<Row>): (a: seq<string>)
    ensures |a| == |rows| && forall i :: 0 <= i < |rows| ==> a[i] == rows[i].area
  {
    seq(|rows|, i requires 0 <= i < |rows| => rows[i].area)
  }

  /** The Year column. */
  function Years(rows: seq<Row>): (y: seq<int>)
    ensures |y| == |rows| && forall i :: 0 <= i < |rows| ==> y[i] == rows[i].year
  {
    seq(|rows|, i requires 0 <= i < |rows| => rows[i].year)
  }

  /** The derived columns of one row agree with its date; `day` is 1 when the
      file has no Day column and is the file's own otherwise. */
  predicate HasCalendar(r: Row, dayColumn: bool, fileDay: int) {
    r.year == r.date.year && r.month == r.date.month && r.day == (if dayColumn then fileDay else 1)
  }

  // ---------------------------------------------------------------------
  // The data frame, mutated in place while loading

  class Frame {
    var rows: seq<Row>
    /** Whether the table has a Day column. */
    var hasDay: bool

    /** Every Date parsed to a real calendar day. */
    ghost predicate Valid()
      reads this
    {
      forall i :: 0 <= i < |rows| ==> ValidDate(rows[i].date)
    }

    /** The table as read and date-parsed (lines 9-10). */
    constructor (parsed: seq<Row>, dayColumn: bool)
      requires forall i :: 0 <= i < |parsed| ==> ValidDate(parsed[i].date)
      ensures Valid() && rows == parsed && hasDay == dayColumn
    {
      rows := parsed;
      hasDay := dayColumn;
    }

    /** Lines 11-14: add Year and Month from Date, and Day = 1 when the
        table has no Day column; nothing else changes. */
    method AddCalendarColumns()
      requires Valid()
      modifies this
      ensures Valid() && hasDay
      ensures |rows| == |old(rows)|
      ensures forall i :: 0 <= i < |rows| ==>
                HasCalendar(rows[i], old(hasDay), old(rows[i].day))
                && 1 <= rows[i].month <= 12
                && rows[i].(year := old(rows[i].year), month := old(rows[i].month), day := old(rows[i].day)) == old(rows[i])
    {
      var rs := rows;
      rs := seq(|rs|, i requires 0 <= i < |rs| => rs[i].(year := rs[i].date.year));
      rs := seq(|rs|, i requires 0 <= i < |rs| => rs[i].(month := rs[i].date.month));
      if !hasDay {
        rs := seq(|rs|, i requires 0 <= i < |rs| => rs[i].(day := 1));
        hasDay := true;
      }
      rows := rs;
    }
  }

  // ---------------------------------------------------------------------
  // Country names

  /** Python's string order: code point by code point, a proper prefix first. */
  predicate StrLess(a: string, b: string) {
    if a == [] then b != []
    else if b == [] then false
    else if a[0] != b[0] then a[0] < b[0]
    else StrLess(a[1..], b[1..])
  }

  lemma {:induction false} StrLessAsymmetric(a: string, b: string)
    ensures StrLess(a, b) ==> !StrLess(b, a)
  {
    if a != [] && b != [] && a[0] == b[0] {
      StrLessAsymmetric(a[1..], b[1..]);
    }
  }

  lemma {:induction false} StrLessTransitive(a: string, b: string, c: string)
    ensures StrLess(a, b) && StrLess(b, c) ==> StrLess(a, c)
  {
    if a != [] && b != [] && c != [] && a[0] == b[0] == c[0] {
      StrLessTransitive(a[1..], b[1..], c[1..]);
    }
  }

  lemma {:induction false} StrLessTotal(a: string, b: string)
    ensures a == b || StrLess(a, b) || StrLess(b, a)
  {
    if a != [] && b != [] && a[0] == b[0] {
      StrLessTotal(a[1..], b[1..]);
      if a[1..] == b[1..] {
        assert a == [a[0]] + a[1..] && b == [b[0]] + b[1..];
      }
    }
  }

  /** Only equal names tie, so sorting names leaves no choice. */
  lemma StrLessIsStrictTotalOrder()
    ensures StrictTotalOrder(StrLess)
  {
    forall a, b ensures StrLess(a, b) ==> !StrLess(b, a) {
      StrLessAsymmetric(a, b);
    }
    forall a, b ensures a != b ==> StrLess(a, b) || StrLess(b, a) {
      StrLessTotal(a, b);
    }
    forall a, b, c | !StrLess(a, b) && !StrLess(b, c) ensures !StrLess(a, c) {
      StrLessTotal(a, b);
      StrLessTotal(b, c);
      StrLessTransitive(b, a, c);
      StrLessTransitive(a, c, b);
      StrLessAsymmetric(a, c);
    }
  }

  /** The distinct Area values, sorted: `ALL_COUNTRIES` (line 16) over the
      whole table, and the row labels `groupby` produces over a subset. */
  function Countries(rows: seq<Row>): (c: seq<string>)
    ensures StrictlySortedBy(c, StrLess)
    ensures forall a :: a in c <==> exists i :: 0 <= i < |rows| && rows[i].area == a
  {
    StrLessIsStrictTotalOrder();
    SortDistinctIsStrict(Unique(Areas(rows)), StrLess);
    Sort(Unique(Areas(rows)), StrLess)
  }

  predicate IntLess(a: int, b: int) {
    a < b
  }

  lemma IntLessIsStrictTotalOrder()
    ensures StrictTotalOrder(IntLess)
  {
  }

  /** The distinct Year values, ascending: the column labels `groupby` produces. */
  function YearsPresent(rows: seq<Row>): (y: seq<int>)
    ensures StrictlySortedBy(y, IntLess)
    ensures forall x :: x in y <==> exists i :: 0 <= i < |rows| && rows[i].year == x
  {
    IntLessIsStrictTotalOrder();
    SortDistinctIsStrict(Unique(Years(rows)), IntLess);
    Sort(Unique(Years(rows)), IntLess)
  }
}
