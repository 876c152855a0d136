/** `calculate_age`: completed years between a birth date and today. */
module Ages {
  import opened Wrappers

  /** A calendar date; the fields are compared as Python compares them. */
  datatype Date = Date(year: int, month: int, day: int)

  /** Python's `(m1, d1) < (m2, d2)` on (month, day) tuples. */
  predicate MonthDayBefore(m1: int, d1: int, m2: int, d2: int)
  {
    m1 < m2 || (m1 == m2 && d1 < d2)
  }

  /** `a` is strictly earlier than `b` in calendar order. */
  predicate Before(a: Date, b: Date)
  {
    a.year < b.year || (a.year == b.year && MonthDayBefore(a.month, a.day, b.month, b.day))
  }

  /** The date of the `n`-th birthday of someone born on `birth`. */
  function Anniversary(birth: Date, n: int): Date
  {
    Date(birth.year + n, birth.month, birth.day)
  }

  /**
   * `calculate_age(birth_date)` with `date.today()` passed in as `today`.
   * A missing birth date gives a missing age; otherwise the age is the number
   * of the last birthday falling on or before today.
   */
  function CalculateAge(birth: Option<Date>, today: Date): (age: Option<int>)
    ensures age.None? <==> birth.None?
    ensures birth.Some? ==>
      && !Before(today, Anniversary(birth.value, age.value))
      && Before(today, Anniversary(birth.value, age.value + 1))
  {
    match birth
    case None => None
    case Some(b) =>
      Some(today.year - b.year - if MonthDayBefore(today.month, today.day, b.month, b.day) then 1 else 0)
  }

  /** Completed years are unique: only one birthday count can be the last one passed. */
  lemma AgeIsTheLastBirthdayPassed(birth: Date, today: Date, n: int)
    requires !Before(today, Anniversary(birth, n))
    requires Before(today, Anniversary(birth, n + 1))
    ensures CalculateAge(Some(birth), today) == Some(n)
  {
  }

  /** Nobody born on or before today has a negative age. */
  lemma AgeNonNegative(birth: Date, today: Date)
    requires !Before(today, birth)
    ensures CalculateAge(Some(birth), today).value >= 0
  {
  }

  /** On the `k`-th birthday itself the age is already `k`. */
  lemma AgeOnBirthday(birth: Date, k: int)
    ensures CalculateAge(Some(birth), Anniversary(birth, k)) == Some(k)
  {
  }

  /**
   * The day before the `k`-th birthday, in the same month, the age is still
   * `k - 1`. A birthday on the 1st has no such day in its month.
   */
  lemma AgeDayBeforeBirthday(birth: Date, k: int)
    requires birth.day > 1
    ensures CalculateAge(Some(birth), Date(birth.year + k, birth.month, birth.day - 1)) == Some(k - 1)
  {
  }

  /** Born 2000-06-15: 23 on 2024-06-14, 24 on 2024-06-15. */
  lemma AgeExample()
    ensures CalculateAge(Some(Date(2000, 6, 15)), Date(2024, 6, 14)) == Some(23)
    ensures CalculateAge(Some(Date(2000, 6, 15)), Date(2024, 6, 15)) == Some(24)
  {
  }
}
