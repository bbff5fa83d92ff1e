/** The civil calendar as a day count, and the instants that RFC 3339 timestamps name. */
module Calendar {
  import opened Bytes

  datatype Date = Date(year: int, month: int, day: int)

  predicate IsLeap(year: int) { year % 4 == 0 && (year % 100 != 0 || year % 400 == 0) }

  function DaysInMonth(year: int, month: int): int {
    if month == 2 then (if IsLeap(year) then 29 else 28)
    else if month == 4 || month == 6 || month == 9 || month == 11 then 30
    else 31
  }

  predicate IsDate(d: Date) { 1 <= d.month <= 12 && 1 <= d.day <= DaysInMonth(d.year, d.month) }

  /** `days_from_civil`: years are taken to start in March. */
  function DaysFromCivil(d: Date): int {
    var adjustedYear := if d.month <= 2 then d.year - 1 else d.year;
    var era := adjustedYear / 400;
    var yearOfEra := adjustedYear - era * 400;
    var adjustedMonth := if d.month > 2 then d.month - 3 else d.month + 9;
    var dayOfYear := (153 * adjustedMonth + 2) / 5 + d.day - 1;
    var dayOfEra := yearOfEra * 365 + yearOfEra / 4 - yearOfEra / 100 + dayOfYear;
    era * 146_097 + dayOfEra - 719_468
  }

  /** The day after. */
  function NextDate(d: Date): Date {
    if d.day < DaysInMonth(d.year, d.month) then Date(d.year, d.month, d.day + 1)
    else if d.month < 12 then Date(d.year, d.month + 1, 1)
    else Date(d.year + 1, 1, 1)
  }

  const EPOCH: Date := Date(1970, 1, 1)

  /** Days before the March that begins the given adjusted year. */
  function YearStart(y: int): int { y * 365 + y / 4 - y / 100 + y / 400 }

  lemma EraFree(y: int)
    ensures var era := y / 400; var yearOfEra := y - era * 400;
            era * 146_097 + yearOfEra * 365 + yearOfEra / 4 - yearOfEra / 100 == YearStart(y)
  {
    var era := y / 400;
    var r := y - era * 400;
    assert y / 4 == 100 * era + r / 4;
    assert y / 100 == 4 * era + r / 100;
  }

  lemma YearLength(y: int)
    ensures YearStart(y + 1) == YearStart(y) + if IsLeap(y + 1) then 366 else 365
  {
    assert (y + 1) / 4 == y / 4 + if (y + 1) % 4 == 0 then 1 else 0;
    assert (y + 1) / 100 == y / 100 + if (y + 1) % 100 == 0 then 1 else 0;
    assert (y + 1) / 400 == y / 400 + if (y + 1) % 400 == 0 then 1 else 0;
    assert (y + 1) % 400 == 0 ==> (y + 1) % 100 == 0 && (y + 1) % 4 == 0;
    assert (y + 1) % 100 == 0 ==> (y + 1) % 4 == 0;
  }

  lemma CountIs(d: Date)
    ensures var y := if d.month <= 2 then d.year - 1 else d.year;
            var m := if d.month > 2 then d.month - 3 else d.month + 9;
            DaysFromCivil(d) == YearStart(y) + (153 * m + 2) / 5 + d.day - 1 - 719_468
  {
    EraFree(if d.month <= 2 then d.year - 1 else d.year);
  }

  /** Every day counts one more than the day before it, over month ends, leap days and centuries. */
  lemma NextCountsOneMore(d: Date)
    requires IsDate(d)
    ensures IsDate(NextDate(d)) && DaysFromCivil(NextDate(d)) == DaysFromCivil(d) + 1
  {
    hide DaysFromCivil, YearStart;
    CountIs(d);
    CountIs(NextDate(d));
    YearLength(d.year - 1);
  }

  lemma EpochIsZero()
    ensures DaysFromCivil(EPOCH) == 0 && IsDate(EPOCH)
  {}

  /** The date `n` days after `d`, found by going there day by day. */
  function DateFrom(d: Date, n: nat): Date { if n == 0 then d else NextDate(DateFrom(d, n - 1)) }

  /** So the difference of two counts is the true number of days between the dates. */
  lemma {:induction false} CountIsTrue(d: Date, n: nat)
    requires IsDate(d)
    ensures IsDate(DateFrom(d, n)) && DaysFromCivil(DateFrom(d, n)) == DaysFromCivil(d) + n
  {
    hide DaysFromCivil, NextDate, IsDate;
    if n > 0 {
      CountIsTrue(d, n - 1);
      NextCountsOneMore(DateFrom(d, n - 1));
    }
  }

  /** The day before. */
  function PreviousDate(d: Date): Date {
    if d.day > 1 then Date(d.year, d.month, d.day - 1)
    else if d.month > 1 then Date(d.year, d.month - 1, DaysInMonth(d.year, d.month - 1))
    else Date(d.year - 1, 12, 31)
  }

  lemma PreviousThenNext(d: Date)
    requires IsDate(d)
    ensures IsDate(PreviousDate(d)) && NextDate(PreviousDate(d)) == d
  {}

  predicate Before(a: Date, b: Date) {
    a.year < b.year || (a.year == b.year && (a.month < b.month || (a.month == b.month && a.day < b.day)))
  }

  /** Every date is reached from every date that is not after it, in as many days as they count apart. */
  lemma {:induction false} LaterIsReached(a: Date, b: Date)
    requires IsDate(a) && IsDate(b) && !Before(b, a)
    ensures DaysFromCivil(a) <= DaysFromCivil(b) && DateFrom(a, DaysFromCivil(b) - DaysFromCivil(a)) == b
    decreases b.year - a.year, b.month, b.day
  {
    hide DaysFromCivil, NextDate;
    if a != b {
      var previous := PreviousDate(b);
      PreviousThenNext(b);
      LaterIsReached(a, previous);
      NextCountsOneMore(previous);
    }
  }
}
