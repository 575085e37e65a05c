/**
 * Calendar dates as Python's `datetime.date` treats them (proleptic Gregorian,
 * years 1..9999), the "N years ago" helper `yearsago`, the completed-birthdays
 * age `get_customer_age`, and the birth-date check `is_valid_date`.
 * The current date is always a parameter (`today`), never read from a clock.
 */
module Calendar {
  import opened Basics

  const MinYear := 1
  const MaxYear := 9999

  /** The age limit `is_valid_date` applies. */
  const OldestAge := 110

  datatype Date = Date(year: int, month: int, day: int)

  predicate IsLeap(y: int)
  {
    y % 4 == 0 && (y % 100 != 0 || y % 400 == 0)
  }

  function DaysInMonth(y: int, m: int): int
    requires 1 <= m <= 12
  {
    if m == 2 then (if IsLeap(y) then 29 else 28)
    else if m == 4 || m == 6 || m == 9 || m == 11 then 30
    else 31
  }

  /** What `datetime.date(year, month, day)` accepts without raising `ValueError`. */
  predicate ValidDate(d: Date)
  {
    MinYear <= d.year <= MaxYear && 1 <= d.month <= 12 && 1 <= d.day <= DaysInMonth(d.year, d.month)
  }

  /** Python's `(m1, d1) < (m2, d2)` tuple comparison. */
  predicate MonthDayBefore(m1: int, d1: int, m2: int, d2: int)
  {
    m1 < m2 || (m1 == m2 && d1 < d2)
  }

  /** `a <= b` on dates: chronological, i.e. lexicographic on (year, month, day). */
  predicate DateLe(a: Date, b: Date)
  {
    a.year < b.year || (a.year == b.year && !MonthDayBefore(b.month, b.day, a.month, a.day))
  }

  predicate DateLt(a: Date, b: Date)
  {
    DateLe(a, b) && a != b
  }

  /**
   * `yearsago(years, d)`: `d.replace(year=d.year - years)`; when that raises
   * (the day does not exist in the target year, or the year leaves 1..9999) the
   * fallback is `d.replace(year=d.year - 100, month=2, day=28)`, which itself
   * raises (None here) when `d.year - 100` is not a valid year.
   */
  function YearsAgo(years: int, d: Date): (r: Option<Date>)
    requires ValidDate(d)
    ensures r.Some? ==> ValidDate(r.value)
    ensures years >= 0 && r.Some? ==> DateLe(r.value, d)
    ensures ValidDate(Date(d.year - years, d.month, d.day)) ==> r == Some(Date(d.year - years, d.month, d.day))
    ensures !ValidDate(Date(d.year - years, d.month, d.day)) && MinYear <= d.year - years <= MaxYear ==>
      d.month == 2 && d.day == 29 && !IsLeap(d.year - years)
    ensures !ValidDate(Date(d.year - years, d.month, d.day)) ==>
      r == if MinYear <= d.year - 100 then Some(Date(d.year - 100, 2, 28)) else None
  {
    var shifted := Date(d.year - years, d.month, d.day);
    if ValidDate(shifted) then Some(shifted)
    else if MinYear <= d.year - 100 then Some(Date(d.year - 100, 2, 28))
    else None
  }

  /**
   * On a 29 February the fallback always fires for 110 years, since a leap year
   * minus 110 is never a leap year; the lower bound then lies 100 years back,
   * on 28 February.
   */
  lemma LeapDayBoundIsHundredYears(today: Date)
    requires ValidDate(today) && today.month == 2 && today.day == 29 && today.year > OldestAge
    ensures YearsAgo(OldestAge, today) == Some(Date(today.year - 100, 2, 28))
  {
    assert IsLeap(today.year);
    assert (today.year - OldestAge) % 4 == 2;
  }

  /** `get_customer_age(birthday)`: whole years, less one if this year's birthday is still ahead. */
  function CustomerAge(birth: Date, today: Date): (age: int)
    ensures DateLe(birth, today) ==> age >= 0
  {
    today.year - birth.year - (if MonthDayBefore(today.month, today.day, birth.month, birth.day) then 1 else 0)
  }

  /** The `k`-th anniversary of `birth`, as a (year, month, day) key for comparison. */
  function Anniversary(birth: Date, k: int): Date
  {
    Date(birth.year + k, birth.month, birth.day)
  }

  /**
   * The age is the number of completed birthdays: the age-th anniversary is on or
   * before today, the next one is after today, and no other number has both properties.
   */
  lemma AgeIsCompletedBirthdays(birth: Date, today: Date, a: int)
    ensures DateLe(Anniversary(birth, CustomerAge(birth, today)), today)
    ensures DateLt(today, Anniversary(birth, CustomerAge(birth, today) + 1))
    ensures DateLe(Anniversary(birth, a), today) && DateLt(today, Anniversary(birth, a + 1)) ==>
      a == CustomerAge(birth, today)
  {
  }

  /** `is_valid_date`'s verdict on a parsed birth date. */
  datatype DateCheck = LaterThanToday | EarlierThanOldestAge | Malformed | Accepted(date: Date)

  /**
   * `is_valid_date(text)`, given what `datetime.strptime(text, '%d/%m/%Y')`
   * produced (None when it raised). A date after today is rejected first; then
   * one before `yearsago(110, today)`; a `ValueError` from `yearsago` is caught
   * by the same handler as a malformed text. Both bounds are inclusive.
   */
  function CheckBirthDate(parsed: Option<Date>, today: Date): DateCheck
    requires ValidDate(today)
  {
    match parsed
    case None => Malformed
    case Some(d) =>
      if DateLt(today, d) then LaterThanToday
      else
        match YearsAgo(OldestAge, today)
        case None => Malformed
        case Some(lower) => if DateLt(d, lower) then EarlierThanOldestAge else Accepted(d)
  }

  /**
   * The four outcomes of `is_valid_date`: later than today iff after today;
   * otherwise earlier than 110 years ago iff before `yearsago(110, today)`;
   * otherwise accepted, returning the date itself, so both bounds are inclusive;
   * unparseable text (or a `yearsago` that raises) is malformed.
   */
  lemma CheckBirthDateOutcomes(parsed: Option<Date>, today: Date)
    requires ValidDate(today)
    ensures var c := CheckBirthDate(parsed, today);
      && (c == Malformed <==> parsed.None? || (!DateLt(today, parsed.value) && YearsAgo(OldestAge, today).None?))
      && (c == LaterThanToday <==> parsed.Some? && DateLt(today, parsed.value))
      && (c == EarlierThanOldestAge <==>
            parsed.Some? && DateLe(parsed.value, today) && YearsAgo(OldestAge, today).Some?
            && DateLt(parsed.value, YearsAgo(OldestAge, today).value))
      && (c.Accepted? <==>
            parsed.Some? && DateLe(parsed.value, today) && YearsAgo(OldestAge, today).Some?
            && DateLe(YearsAgo(OldestAge, today).value, parsed.value))
      && (c.Accepted? ==> c.date == parsed.value)
  {
  }

  /** An accepted birth date gives a customer aged between 0 and 110. */
  lemma AcceptedBirthDateAge(parsed: Option<Date>, today: Date)
    requires ValidDate(today) && CheckBirthDate(parsed, today).Accepted?
    ensures 0 <= CustomerAge(CheckBirthDate(parsed, today).date, today) <= OldestAge
  {
    CheckBirthDateOutcomes(parsed, today);
    var b := parsed.value;
    var lower := YearsAgo(OldestAge, today).value;
    assert DateLe(lower, b);
    if ValidDate(Date(today.year - OldestAge, today.month, today.day)) {
      assert lower == Date(today.year - OldestAge, today.month, today.day);
    } else {
      assert lower.year == today.year - 100;
    }
  }

  /**
   * On a day that is neither the first nor the last of its month, with today's
   * year past 110: today and the same day 110 years back are accepted, the real
   * date one day before that is too old, and tomorrow is later than today.
   */
  lemma BoundaryDatesAccepted(today: Date)
    requires ValidDate(today) && today.year > OldestAge && 1 < today.day < DaysInMonth(today.year, today.month)
    ensures ValidDate(Date(today.year - OldestAge, today.month, today.day - 1))
    ensures ValidDate(Date(today.year, today.month, today.day + 1))
    ensures CheckBirthDate(Some(today), today) == Accepted(today)
    ensures CheckBirthDate(Some(Date(today.year - OldestAge, today.month, today.day)), today)
      == Accepted(Date(today.year - OldestAge, today.month, today.day))
    ensures CheckBirthDate(Some(Date(today.year - OldestAge, today.month, today.day - 1)), today)
      == EarlierThanOldestAge
    ensures CheckBirthDate(Some(Date(today.year, today.month, today.day + 1)), today) == LaterThanToday
  {
    assert ValidDate(Date(today.year - OldestAge, today.month, today.day)) by {
      if today.month == 2 {
        assert today.day <= 28;
      }
    }
  }
}
