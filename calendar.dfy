/** Proleptic Gregorian civil dates, as the JavaScript `Date` object presents them through
    `getFullYear()`, `getMonth() + 1` and `getDate()`, and the day arithmetic the edition
    resolver relies on: `setDate` with an out-of-range day, which rolls over into the
    neighbouring months. */
module Calendar {

  /** A calendar day: year (astronomical numbering), month 1..12, day of month. */
  datatype Date = Date(year: int, month: int, day: int)

  predicate IsLeapYear(y: int)
  {
    (y % 4 == 0 && y % 100 != 0) || y % 400 == 0
  }

  function DaysInMonth(y: int, m: int): (n: int)
    requires 1 <= m <= 12
    ensures 28 <= n <= 31
    ensures n == 29 <==> m == 2 && IsLeapYear(y)
  {
    if m == 2 then (if IsLeapYear(y) then 29 else 28)
    else if m == 4 || m == 6 || m == 9 || m == 11 then 30
    else 31
  }

  /** Every `Date` object denotes such a day. */
  predicate ValidDate(d: Date)
  {
    1 <= d.month <= 12 && 1 <= d.day <= DaysInMonth(d.year, d.month)
  }

  /** Chronological order of days. */
  predicate Before(a: Date, b: Date)
  {
    a.year < b.year ||
    (a.year == b.year && (a.month < b.month || (a.month == b.month && a.day < b.day)))
  }

  /** The day before: earlier in the month, else the last day of the previous month,
      else 31 December of the previous year. */
  function Pred(d: Date): (p: Date)
    requires ValidDate(d)
    ensures ValidDate(p) && Before(p, d)
  {
    if d.day > 1 then Date(d.year, d.month, d.day - 1)
    else if d.month > 1 then Date(d.year, d.month - 1, DaysInMonth(d.year, d.month - 1))
    else Date(d.year - 1, 12, 31)
  }

  /** The day after; the independent partner of Pred. */
  function Succ(d: Date): (s: Date)
    requires ValidDate(d)
    ensures ValidDate(s) && Before(d, s)
  {
    if d.day < DaysInMonth(d.year, d.month) then Date(d.year, d.month, d.day + 1)
    else if d.month < 12 then Date(d.year, d.month + 1, 1)
    else Date(d.year + 1, 1, 1)
  }

  /** Pred and Succ undo each other. */
  lemma PredSuccInverse(d: Date)
    requires ValidDate(d)
    ensures Succ(Pred(d)) == d
    ensures Pred(Succ(d)) == d
  {
  }

  /** Pred(d) is the latest valid day before d: no valid day lies strictly between them. */
  lemma PredIsImmediate(d: Date, e: Date)
    requires ValidDate(d) && ValidDate(e) && Before(e, d)
    ensures e == Pred(d) || Before(e, Pred(d))
  {
  }

  /** The day i days before d. */
  function DaysBefore(d: Date, i: nat): (r: Date)
    requires ValidDate(d)
    ensures ValidDate(r)
    decreases i
  {
    if i == 0 then d else DaysBefore(Pred(d), i - 1)
  }

  /** Stepping one more day back is one more Pred. */
  lemma {:induction false} DaysBeforeStep(d: Date, i: nat)
    requires ValidDate(d)
    ensures DaysBefore(d, i + 1) == Pred(DaysBefore(d, i))
    decreases i
  {
    if i > 0 {
      DaysBeforeStep(Pred(d), i - 1);
    }
  }

  lemma BeforeTransitive(a: Date, b: Date, c: Date)
    requires Before(a, b) && Before(b, c)
    ensures Before(a, c)
  {
  }

  /** Going further back gives a strictly earlier day. */
  lemma {:induction false} DaysBeforeDecreasing(d: Date, i: nat, j: nat)
    requires ValidDate(d) && i < j
    ensures Before(DaysBefore(d, j), DaysBefore(d, i))
    decreases j
  {
    DaysBeforeStep(d, j - 1);
    if i < j - 1 {
      DaysBeforeDecreasing(d, i, j - 1);
      BeforeTransitive(DaysBefore(d, j), DaysBefore(d, j - 1), DaysBefore(d, i));
    }
  }

  /** The day that `setDate(dayValue)` selects on a date in month m of year y: a day value
      below 1 counts back into the previous months, one beyond the month's length counts
      forward into the next months. */
  function NormalizeDay(y: int, m: int, dayValue: int): (r: Date)
    requires 1 <= m <= 12
    ensures ValidDate(r)
    decreases if dayValue < 1 then 100 - dayValue else dayValue
  {
    if dayValue < 1 then
      var py := if m > 1 then y else y - 1;
      var pm := if m > 1 then m - 1 else 12;
      NormalizeDay(py, pm, dayValue + DaysInMonth(py, pm))
    else if dayValue > DaysInMonth(y, m) then
      var ny := if m < 12 then y else y + 1;
      var nm := if m < 12 then m + 1 else 1;
      NormalizeDay(ny, nm, dayValue - DaysInMonth(y, m))
    else
      Date(y, m, dayValue)
  }

  /** `d.setDate(dayValue)`: keeps d's year and month, then normalises. */
  function SetDate(d: Date, dayValue: int): Date
    requires 1 <= d.month <= 12
  {
    NormalizeDay(d.year, d.month, dayValue)
  }

  /** `setDate(getDate() - i)` lands exactly i days back, across month ends, year ends
      and 29 February alike. */
  lemma {:induction false} SetDateGoesBack(d: Date, i: nat)
    requires ValidDate(d)
    ensures SetDate(d, d.day - i) == DaysBefore(d, i)
    decreases i
  {
    if i > 0 {
      SetDateGoesBack(Pred(d), i - 1);
    }
  }
}
