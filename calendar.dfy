/** Calendar dates as the dashboards read them off a JavaScript Date (`getFullYear`,
    `getMonth`, `getDate`), and the completed-years computation both `calculateAge`
    variants share. */
module Calendar {

  datatype CivilDate = CivilDate(year: int, month: int, day: int)

  /** `a` falls on or before `b`: year, then month, then day. */
  predicate OnOrBefore(a: CivilDate, b: CivilDate)
  {
    a.year < b.year || (a.year == b.year && (a.month < b.month || (a.month == b.month && a.day <= b.day)))
  }

  /** The same month and day `n` years later. */
  function Anniversary(birth: CivilDate, n: int): CivilDate
  {
    CivilDate(birth.year + n, birth.month, birth.day)
  }

  /** The year difference, less one when today's month is earlier than the birth month, or
      is the same month with an earlier day: the number of anniversaries reached, that is
      the `n` whose anniversary is on or before today while the next one is after it. */
  function YearsBetween(birth: CivilDate, today: CivilDate): (age: int)
    ensures OnOrBefore(Anniversary(birth, age), today)
    ensures !OnOrBefore(Anniversary(birth, age + 1), today)
  {
    var age := today.year - birth.year;
    var monthDifference := today.month - birth.month;
    if monthDifference < 0 || (monthDifference == 0 && today.day < birth.day) then age - 1 else age
  }

  /** Anniversaries come in order, so only one `n` has the property above. */
  lemma AnniversariesOrdered(birth: CivilDate, today: CivilDate, m: int, n: int)
    requires m <= n && OnOrBefore(Anniversary(birth, n), today)
    ensures OnOrBefore(Anniversary(birth, m), today)
  {
  }

  /** The age is the unique count of reached anniversaries. */
  lemma AgeIsUnique(birth: CivilDate, today: CivilDate, n: int)
    requires OnOrBefore(Anniversary(birth, n), today) && !OnOrBefore(Anniversary(birth, n + 1), today)
    ensures n == YearsBetween(birth, today)
  {
    var age := YearsBetween(birth, today);
    if n < age {
      AnniversariesOrdered(birth, today, n + 1, age);
    } else if n > age {
      AnniversariesOrdered(birth, today, age + 1, n);
    }
  }

  /** The computed age is negative exactly when the birth date lies after today. */
  lemma NegativeAgeMeansFutureBirth(birth: CivilDate, today: CivilDate)
    ensures YearsBetween(birth, today) >= 0 <==> OnOrBefore(birth, today)
  {
    var age := YearsBetween(birth, today);
    assert Anniversary(birth, 0) == birth;
    if age >= 0 {
      AnniversariesOrdered(birth, today, 0, age);
    } else {
      assert !OnOrBefore(Anniversary(birth, age + 1), today);
      if OnOrBefore(birth, today) {
        AnniversariesOrdered(birth, today, age + 1, 0);
      }
    }
  }
}
