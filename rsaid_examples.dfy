/** The package's test vectors, and a few more inputs that pin down the
    boundaries of the checksum, the century rule and `Parse`. */
module RsaIdExamples {
  import opened RsaId

  const ValidMale := "9506245120008"
  const ValidFemale := "9506244120009"
  const InvalidDob := "9502305120008"
  const InvalidIdn := "9506245120009"
  const NonCitizen := "9506245120107"
  const ShortNumber := "950624"

  /** 30 February behind a checksum that passes. */
  const ImpossibleDate := "9502305120004"

  /** The checksum accepts the test numbers (each has Luhn sum 40). */
  lemma ValidVectors()
    ensures Valid(ValidMale) && Valid(ValidFemale) && Valid(NonCitizen)
  {
    LuhnSumOfThirteen(ValidMale);
    LuhnSumOfThirteen(ValidFemale);
    LuhnSumOfThirteen(NonCitizen);
  }

  /** The checksum rejects the altered check digit and the short number, and
      rejects the impossible-date vector already at the checksum (its Luhn
      sum is 34). */
  lemma InvalidVectors()
    ensures !Valid(InvalidIdn) && !Valid(ShortNumber)
    ensures LuhnSum(InvalidDob) == 34 && !Valid(InvalidDob)
  {
    LuhnSumOfThirteen(InvalidIdn);
    LuhnSumOfThirteen(InvalidDob);
  }

  lemma ImpossibleDateIsValid()
    ensures Valid(ImpossibleDate)
  {
    LuhnSumOfThirteen(ImpossibleDate);
  }

  /** A non-digit byte is counted as zero, so a letter in place of a '0' is accepted. */
  lemma NonDigitAccepted()
    ensures Valid("95062451200x8")
  {
    ValidVectors();
    NonDigitCountsAsZero(ValidMale, 11, 'x');
    assert ValidMale[11 := '0'] == ValidMale;
    assert ValidMale[11 := 'x'] == "95062451200x8";
  }

  lemma GenderVectors()
    ensures Gender(ValidMale) == Outcome("male", None)
    ensures Gender(ValidFemale) == Outcome("female", None)
    ensures Gender(InvalidIdn) == Outcome("", Some(InvalidId))
  {
    ValidVectors();
    InvalidVectors();
  }

  lemma CitizenVectors()
    ensures IsCitizen(ValidMale) == Outcome(true, None)
    ensures IsCitizen(NonCitizen) == Outcome(false, None)
    ensures IsCitizen(InvalidIdn) == Outcome(false, Some(InvalidId))
  {
    ValidVectors();
    InvalidVectors();
  }

  /** Throughout 2000..2099, which includes every day from 24 June 2011 on
      that the test assumes, the test number is born on 24 June 1995. */
  lemma BirthDateVector(now: Date)
    requires 2000 <= now.year <= 2099
    ensures BirthDate(ValidMale, now) == Outcome(Date(1995, 6, 24), None)
  {
    ValidVectors();
    assert DateFields(ValidMale) == (95, 6, 24);
    assert Century(now.year) == 2000;
  }

  /** From 2100 on the current-century candidate 2195 moves back only to
      2095: the same number then reads as born on 24 June 2095. */
  lemma BirthDateVectorNextCentury(now: Date)
    requires 2100 <= now.year <= 2199
    ensures BirthDate(ValidMale, now) == Outcome(Date(2095, 6, 24), None)
  {
    ValidVectors();
    assert DateFields(ValidMale) == (95, 6, 24);
    assert Century(now.year) == 2100;
  }

  /** An impossible date behind a valid checksum is a date error from
      `BirthDate`, but `Parse` still succeeds and reports `now` as the date. */
  lemma ImpossibleDateVector(now: Date)
    requires 2011 <= now.year <= 2099
    ensures BirthDate(ImpossibleDate, now) == Outcome(now, Some(DateParse))
    ensures Parse(ImpossibleDate, now) == Outcome(Details(now, "male", true), None)
  {
    ImpossibleDateIsValid();
    assert DateFields(ImpossibleDate) == (95, 2, 30);
    assert Century(now.year) == 2000;
    var year := ResolveYear(95, 2, 30, now);
    assert DaysInMonth(2, year) <= 29;
  }

  lemma ParseVectors(now: Date)
    requires 2000 <= now.year <= 2099
    ensures Parse(ValidMale, now) == Outcome(Details(Date(1995, 6, 24), "male", true), None)
    ensures Parse(InvalidIdn, now) == Outcome(Details(ZeroDate, "", false), Some(InvalidId))
  {
    InvalidVectors();
    BirthDateVector(now);
    GenderVectors();
    CitizenVectors();
  }

  /** On 15 October 2026 the eligibility day is 15 October 2010: a date on it
      stays in this century, one day, or one month, later moves back a century. */
  lemma CenturyBoundary()
    ensures ResolveYear(10, 10, 15, Date(2026, 10, 15)) == 2010
    ensures ResolveYear(10, 10, 16, Date(2026, 10, 15)) == 1910
    ensures ResolveYear(10, 9, 30, Date(2026, 10, 15)) == 2010
    ensures ResolveYear(10, 11, 1, Date(2026, 10, 15)) == 1910
    ensures BirthDate("1010155120007", Date(2026, 10, 15)) == Outcome(Date(2010, 10, 15), None)
  {
    assert Century(2026) == 2000;
    LuhnSumOfThirteen("1010155120007");
    assert Valid("1010155120007");
    assert DateFields("1010155120007") == (10, 10, 15);
  }

  /** The rule moves back at most one century, so when the current year's last
      two digits are 00..15 a number can resolve to a holder younger than 16:
      on 1 January 2010, "99" in June resolves to 1999, and on 1 January 2015
      "99" on 31 December resolves to 1999 as well. */
  lemma SingleShiftCanLeaveMinor()
    ensures ResolveYear(99, 6, 1, Date(2010, 1, 1)) == 1999
    ensures DateAfter(Date(1999, 6, 1), EligibleDate(Date(2010, 1, 1)))
    ensures ResolveYear(99, 12, 31, Date(2015, 1, 1)) == 1999
    ensures DateAfter(Date(1999, 12, 31), EligibleDate(Date(2015, 1, 1)))
  {
  }
}
