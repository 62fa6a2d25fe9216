/** The age rule of the signup form: a date of birth is accepted when the
    user is between 14 and 90 years old, both inclusive, on the day of signup. */
module SignupForms {
  import opened Wrappers

  /** A calendar date. The age rule compares (month, day) pairs only, so no
      calendar validity is needed. */
  datatype Date = Date(year: int, month: int, day: int)

  const MinAge: int := 14
  const MaxAge: int := 90
  const AgeRangeMessage: string := "You must be between 14 and 90 years old to register."

  /** (a.month, a.day) < (b.month, b.day), compared lexicographically. */
  predicate MonthDayBefore(a: Date, b: Date)
  {
    a.month < b.month || (a.month == b.month && a.day < b.day)
  }

  /** a <= b in calendar order (year, then month, then day). */
  predicate OnOrBefore(a: Date, b: Date)
  {
    a.year < b.year || (a.year == b.year && !MonthDayBefore(b, a))
  }

  /** The `n`-th birthday of someone born on `dob`. */
  function Anniversary(dob: Date, n: int): Date
  {
    Date(dob.year + n, dob.month, dob.day)
  }

  /** Age in whole years on `today`: the difference of the years, less one
      when this year's birthday is still to come. It is the number of
      birthdays that have come by `today`: the age-th birthday has come and the
      next one has not. */
  function Age(dob: Date, today: Date): (age: int)
    ensures OnOrBefore(Anniversary(dob, age), today)
    ensures !OnOrBefore(Anniversary(dob, age + 1), today)
  {
    today.year - dob.year - (if MonthDayBefore(today, dob) then 1 else 0)
  }

  /** On the birthday itself the age is one more than on any day from the
      previous birthday up to the day before, across a year boundary too. */
  lemma AgeRisesOnBirthday(dob: Date, today: Date, earlier: Date)
    requires today.month == dob.month && today.day == dob.day
    requires OnOrBefore(Anniversary(dob, today.year - dob.year - 1), earlier) && !OnOrBefore(today, earlier)
    ensures Age(dob, today) == Age(dob, earlier) + 1
  {
  }

  /** Age never decreases as time goes on. */
  lemma AgeMonotone(dob: Date, a: Date, b: Date)
    requires OnOrBefore(a, b)
    ensures Age(dob, a) <= Age(dob, b)
  {
  }

  /** The outcome of cleaning the date-of-birth field. */
  datatype Cleaned = Accepted(dob: Option<Date>) | Rejected(message: string)

  /** Cleans the date-of-birth field on `today`. A missing value is not
      checked; a present one is accepted when the age is between 14 and 90,
      both inclusive. An accepted value is returned unchanged. */
  function CleanDateOfBirth(dob: Option<Date>, today: Date): (r: Cleaned)
    ensures r.Accepted? <==> dob.None? || MinAge <= Age(dob.value, today) <= MaxAge
    ensures r.Accepted? ==> r.dob == dob
    ensures r.Rejected? ==> r.message == AgeRangeMessage
  {
    match dob
    case None => Accepted(None)
    case Some(d) =>
      var age := Age(d, today);
      if !(MinAge <= age <= MaxAge) then Rejected(AgeRangeMessage) else Accepted(dob)
  }

  /** A date of birth is accepted exactly when the 14th birthday has come by
      `today` and the 91st has not. */
  lemma {:induction false} AcceptedBetweenBirthdays(dob: Date, today: Date)
    ensures CleanDateOfBirth(Some(dob), today).Accepted? <==>
              OnOrBefore(Anniversary(dob, MinAge), today) && !OnOrBefore(Anniversary(dob, MaxAge + 1), today)
  {
    var age := Age(dob, today);
    if age < MinAge {
      AnniversaryOrder(dob, age + 1, MinAge);
    } else if age > MaxAge {
      AnniversaryOrder(dob, MaxAge + 1, age);
    } else {
      AnniversaryOrder(dob, MinAge, age);
      AnniversaryOrder(dob, age + 1, MaxAge + 1);
    }
  }

  /** Later birthdays come later. */
  lemma AnniversaryOrder(dob: Date, m: int, n: int)
    requires m <= n
    ensures OnOrBefore(Anniversary(dob, m), Anniversary(dob, n))
  {
  }

  /** A date of birth after `today` gives a negative age and is rejected. */
  lemma FutureBirthRejected(dob: Date, today: Date)
    requires !OnOrBefore(dob, today)
    ensures Age(dob, today) < 0
    ensures CleanDateOfBirth(Some(dob), today).Rejected?
  {
  }
}
