/**
 * GetCurrentAge: whole years elapsed from a birth instant to "now", computed
 * as the difference of the calendar years, minus one when the birthday of
 * the current year is still ahead. The clock read of the original is the
 * parameter `now`; both instants are taken in one and the same offset.
 */
module Helpers {

  const TicksPerDay: int := 864_000_000_000

  /** A calendar instant: a proleptic Gregorian date and the time of day in
      100-nanosecond ticks since midnight. */
  datatype DateTimeOffset = DateTimeOffset(year: int, month: int, day: int, ticks: int)

  predicate IsLeapYear(y: int) {
    y % 4 == 0 && (y % 100 != 0 || y % 400 == 0)
  }

  function DaysInMonth(y: int, m: int): (n: int)
    requires 1 <= m <= 12
    ensures 28 <= n <= 31
    ensures m == 2 ==> (n == 29 <==> IsLeapYear(y))
  {
    if m == 2 then (if IsLeapYear(y) then 29 else 28)
    else if m == 4 || m == 6 || m == 9 || m == 11 then 30
    else 31
  }

  predicate IsValid(d: DateTimeOffset) {
    && 1 <= d.month <= 12
    && 1 <= d.day <= DaysInMonth(d.year, d.month)
    && 0 <= d.ticks < TicksPerDay
  }

  /** a is strictly earlier than b. */
  predicate Before(a: DateTimeOffset, b: DateTimeOffset) {
    || a.year < b.year
    || (a.year == b.year && a.month < b.month)
    || (a.year == b.year && a.month == b.month && a.day < b.day)
    || (a.year == b.year && a.month == b.month && a.day == b.day && a.ticks < b.ticks)
  }

  /** DateTimeOffset.AddYears: the same month, day and time of day n years
      later, except that February 29 becomes February 28 when the target
      year is not a leap year. */
  function AddYears(d: DateTimeOffset, n: int): (r: DateTimeOffset)
    requires IsValid(d)
    ensures IsValid(r)
    ensures r.year == d.year + n && r.month == d.month && r.ticks == d.ticks
    ensures r.day == d.day || (d.month == 2 && d.day == 29 && !IsLeapYear(r.year) && r.day == 28)
  {
    var y := d.year + n;
    var last := DaysInMonth(y, d.month);
    DateTimeOffset(y, d.month, if d.day > last then last else d.day, d.ticks)
  }

  /** Adding no years changes nothing. */
  lemma AddZeroYears(d: DateTimeOffset)
    requires IsValid(d)
    ensures AddYears(d, 0) == d
  {
  }

  /** The extension method itself. */
  function GetCurrentAge(birth: DateTimeOffset, now: DateTimeOffset): (age: int)
    requires IsValid(birth) && IsValid(now)
    ensures age == now.year - birth.year || age == now.year - birth.year - 1
  {
    var age := now.year - birth.year;
    if Before(now, AddYears(birth, age)) then age - 1 else age
  }

  /** The decrement happens exactly when the anniversary in the current year
      is still strictly ahead; on the anniversary itself it does not. */
  lemma DecrementIffBeforeAnniversary(birth: DateTimeOffset, now: DateTimeOffset)
    requires IsValid(birth) && IsValid(now)
    ensures GetCurrentAge(birth, now) == now.year - birth.year - 1
        <==> Before(now, AddYears(birth, now.year - birth.year))
  {
  }

  /** The age is the number of whole years elapsed: the age-th anniversary
      has been reached and the next one has not. */
  lemma AgeIsBracketedByAnniversaries(birth: DateTimeOffset, now: DateTimeOffset)
    requires IsValid(birth) && IsValid(now)
    ensures var age := GetCurrentAge(birth, now);
      !Before(now, AddYears(birth, age)) && Before(now, AddYears(birth, age + 1))
  {
  }

  /** That bracket determines the age: no other count of years fits it. */
  lemma AgeIsUnique(birth: DateTimeOffset, now: DateTimeOffset, a: int)
    requires IsValid(birth) && IsValid(now)
    requires !Before(now, AddYears(birth, a)) && Before(now, AddYears(birth, a + 1))
    ensures a == GetCurrentAge(birth, now)
  {
    var age := GetCurrentAge(birth, now);
    AgeIsBracketedByAnniversaries(birth, now);
    if a < age {
      AddYearsMonotone(birth, a + 1, age);
    } else if a > age {
      AddYearsMonotone(birth, age + 1, a);
    }
  }

  /** Adding more years never gives an earlier instant. */
  lemma AddYearsMonotone(d: DateTimeOffset, j: int, k: int)
    requires IsValid(d) && j <= k
    ensures AddYears(d, j) == AddYears(d, k) || Before(AddYears(d, j), AddYears(d, k))
  {
  }

  /** Nobody born at or before now has a negative age. */
  lemma AgeNonNegative(birth: DateTimeOffset, now: DateTimeOffset)
    requires IsValid(birth) && IsValid(now)
    requires !Before(now, birth)
    ensures GetCurrentAge(birth, now) >= 0
  {
    AddZeroYears(birth);
  }

  /** For a fixed birth instant, a later now never gives a smaller age. */
  lemma AgeMonotone(birth: DateTimeOffset, now1: DateTimeOffset, now2: DateTimeOffset)
    requires IsValid(birth) && IsValid(now1) && IsValid(now2)
    requires !Before(now2, now1)
    ensures GetCurrentAge(birth, now1) <= GetCurrentAge(birth, now2)
  {
    var a1, a2 := GetCurrentAge(birth, now1), GetCurrentAge(birth, now2);
    AgeIsBracketedByAnniversaries(birth, now1);
    AgeIsBracketedByAnniversaries(birth, now2);
    if a2 < a1 {
      AddYearsMonotone(birth, a2 + 1, a1);
    }
  }

  /** Someone born on February 29 turns a year older on February 28 of a
      common year, at the time of day of the birth. */
  lemma LeapDayBirthdayInCommonYear(birth: DateTimeOffset, year: int, ticks: int)
    requires IsValid(birth) && birth.month == 2 && birth.day == 29
    requires !IsLeapYear(year) && 0 <= ticks < TicksPerDay
    ensures GetCurrentAge(birth, DateTimeOffset(year, 2, 28, ticks))
         == if ticks < birth.ticks then year - birth.year - 1 else year - birth.year
    ensures GetCurrentAge(birth, DateTimeOffset(year, 2, 27, ticks)) == year - birth.year - 1
  {
  }

  /** In a leap year the same person is still a year younger all through
      February 28. */
  lemma LeapDayBirthdayInLeapYear(birth: DateTimeOffset, year: int, ticks: int)
    requires IsValid(birth) && birth.month == 2 && birth.day == 29
    requires IsLeapYear(year) && 0 <= ticks < TicksPerDay
    ensures GetCurrentAge(birth, DateTimeOffset(year, 2, 28, ticks)) == year - birth.year - 1
  {
  }

  /** Born 2000-03-01: still 23 on 2024-02-29, 24 on 2024-03-01. */
  lemma AgeExamples()
    ensures GetCurrentAge(DateTimeOffset(2000, 3, 1, 0), DateTimeOffset(2024, 2, 29, 0)) == 23
    ensures GetCurrentAge(DateTimeOffset(2000, 3, 1, 0), DateTimeOffset(2024, 3, 1, 0)) == 24
  {
  }
}
