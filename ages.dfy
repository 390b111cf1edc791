/**
 * Age in completed years (`calculate_age` in main.py). The clock read of the
 * source becomes the explicit evaluation date `today`.
 */
module Ages {

  /** An already-parsed calendar date. No calendar validity is assumed:
      the computation only compares years, months and days as integers. */
  datatype Date = Date(year: int, month: int, day: int)

  /** Python's tuple comparison `(m1, d1) < (m2, d2)`. */
  predicate MonthDayBefore(m1: int, d1: int, m2: int, d2: int) {
    m1 < m2 || (m1 == m2 && d1 < d2)
  }

  /** Lexicographic order on (year, month, day): `a` is on or before `b`. */
  predicate OnOrBefore(a: Date, b: Date) {
    a.year < b.year || (a.year == b.year && !MonthDayBefore(b.month, b.day, a.month, a.day))
  }

  /** Strict lexicographic order on (year, month, day). */
  predicate Before(a: Date, b: Date) {
    !OnOrBefore(b, a)
  }

  /** The `k`-th birthday of someone born on `birth`. */
  function Anniversary(birth: Date, k: int): Date {
    Date(birth.year + k, birth.month, birth.day)
  }

  /** Year difference, less one when today's (month, day) precedes the
      birth (month, day). The result is the number of completed years:
      the age-th birthday has happened and the next one has not. */
  function CalculateAge(birth: Date, today: Date): (age: int)
    ensures OnOrBefore(Anniversary(birth, age), today)
    ensures Before(today, Anniversary(birth, age + 1))
  {
    var age := today.year - birth.year;
    if MonthDayBefore(today.month, today.day, birth.month, birth.day) then age - 1 else age
  }

  /** The result is the year difference or one less, and it is one less
      exactly when today's (month, day) precedes the birth (month, day). */
  lemma AgeIsYearDifferenceOrOneLess(birth: Date, today: Date)
    ensures var age := CalculateAge(birth, today);
      (age == today.year - birth.year || age == today.year - birth.year - 1) &&
      (age == today.year - birth.year - 1 <==> MonthDayBefore(today.month, today.day, birth.month, birth.day))
  {
  }

  /** Completed years are unique: any `k` whose `k`-th birthday has happened
      while the next has not is the computed age; so the age is the largest
      `k` whose `k`-th birthday is on or before today. */
  lemma CompletedYearsUnique(birth: Date, today: Date, k: int)
    requires OnOrBefore(Anniversary(birth, k), today)
    requires Before(today, Anniversary(birth, k + 1))
    ensures k == CalculateAge(birth, today)
  {
  }

  /** No birthday after the computed age has happened yet. */
  lemma AgeIsLargestCompletedYear(birth: Date, today: Date, k: int)
    requires OnOrBefore(Anniversary(birth, k), today)
    ensures k <= CalculateAge(birth, today)
  {
  }

  /** A birth date on or before the evaluation date gives a non-negative age. */
  lemma AgeNonNegative(birth: Date, today: Date)
    requires OnOrBefore(birth, today)
    ensures CalculateAge(birth, today) >= 0
  {
  }

  /** On the birthday itself the age is the year difference. */
  lemma AgeOnBirthday(birth: Date, today: Date)
    requires today.month == birth.month && today.day == birth.day
    ensures CalculateAge(birth, today) == today.year - birth.year
  {
  }

  /** On the day before the birthday (same month) the age is one less. */
  lemma AgeDayBeforeBirthday(birth: Date, today: Date)
    requires today.month == birth.month && today.day + 1 == birth.day
    ensures CalculateAge(birth, today) == today.year - birth.year - 1
  {
  }
}
