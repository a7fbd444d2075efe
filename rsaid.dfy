/** A model of the `rsaid` package: validation and decoding of 13-character
    South African identity numbers.

    An identity number is taken as the byte sequence of the Go string, one
    `char` per byte.  Every place where the package reads the live clock
    takes an injected reference date `now` instead.
 */
module RsaId {

  datatype Option<T> = None | Some(value: T)

  /** The two failures the package reports: the checksum gate, and a date of
      birth that is not a real calendar date. */
  datatype Error = InvalidId | DateParse

  /** A Go `(value, error)` pair: the value is returned even when an error is. */
  datatype Outcome<T> = Outcome(value: T, err: Option<Error>)

  /** The year/month/day part of a Go `time.Time`. */
  datatype Date = Date(year: int, month: int, day: int)

  /** The record `Parse` returns. */
  datatype Details = Details(dob: Date, gender: string, citizen: bool)

  const IdLength := 13
  const MinimumAge := 16

  /** Go's zero `time.Time` is 1 January of year 1. */
  const ZeroDate := Date(1, 1, 1)

  predicate IsDigit(c: char) { '0' <= c <= '9' }

  /** `strconv.Atoi` of a one-byte string with its error discarded:
      the digit's value, or 0 when the byte is not a digit. */
  function DigitValue(c: char): (v: int)
    ensures 0 <= v <= 9
    ensures IsDigit(c) ==> c == ('0' as int + v) as char
    ensures !IsDigit(c) ==> v == 0
  {
    if IsDigit(c) then c as int - '0' as int else 0
  }

  // ---------------------------------------------------------------------
  // Checksum (Luhn mod 10)
  // ---------------------------------------------------------------------

  /** What one character adds to the Luhn sum; a doubled digit contributes the
      sum of the decimal digits of its double ("double-add-double"). */
  function Contribution(c: char, doubled: bool): (v: int)
    ensures 0 <= v <= 9
    ensures !doubled ==> v == DigitValue(c)
    ensures doubled ==> v == (2 * DigitValue(c)) / 10 + (2 * DigitValue(c)) % 10
  {
    var d := DigitValue(c);
    if doubled then (if 2 * d > 9 then (2 * d) % 10 + 1 else 2 * d) else d
  }

  /** The Luhn sum of `s` read from right to left, where the rightmost
      character is doubled exactly when `doubled` holds and the flag
      alternates from one character to the next. */
  function LuhnFrom(s: string, doubled: bool): (sum: int)
  {
    if |s| == 0 then 0
    else Contribution(s[|s| - 1], doubled) + LuhnFrom(s[..|s| - 1], !doubled)
  }

  /** The Luhn sum of an identity number: its rightmost character is not doubled. */
  function LuhnSum(id: string): (sum: int)
  {
    LuhnFrom(id, false)
  }

  /** The checksum rule that `IsValid` decides. */
  predicate Valid(id: string)
  {
    |id| == IdLength && LuhnSum(id) % 10 == 0
  }

  /** The length gate followed by the right-to-left loop that accumulates the
      Luhn sum with an alternating doubling flag. */
  method IsValid(id: string) returns (ok: bool)
    ensures ok <==> Valid(id)
    ensures |id| != IdLength ==> !ok
  {
    var length := |id|;
    if length != IdLength {
      return false;
    }
    var sum := 0;
    var alternate := false;
    var i := length - 1;
    assert id[..i + 1] == id;
    while i > -1
      invariant -1 <= i < length
      invariant sum + LuhnFrom(id[..i + 1], alternate) == LuhnSum(id)
      decreases i + 1
    {
      assert id[..i + 1][..i] == id[..i];
      var mod := DigitValue(id[i]);
      if alternate {
        mod := mod * 2;
        if mod > 9 {
          mod := (mod % 10) + 1;
        }
      }
      alternate := !alternate;
      sum := sum + mod;
      i := i - 1;
    }
    assert id[..0] == [];
    ok := sum % 10 == 0;
  }

  /** Whether position `k` of a string of length `n` is doubled when the
      rightmost position is doubled exactly when `doubled` holds. */
  predicate DoubledAt(n: int, k: int, doubled: bool)
  {
    doubled != ((n - 1 - k) % 2 == 1)
  }

  /** The same sum read from left to right: position `k` of `s` is doubled
      when its distance from the rightmost position is odd (flipped when the
      rightmost position itself is doubled). */
  function IndexSum(s: string, doubled: bool, k: nat): (sum: int)
    decreases |s| - k
  {
    if k >= |s| then 0
    else Contribution(s[k], DoubledAt(|s|, k, doubled)) + IndexSum(s, doubled, k + 1)
  }

  lemma {:induction false} IndexSumDropLast(s: string, doubled: bool, k: nat)
    requires k < |s|
    ensures IndexSum(s, doubled, k)
         == IndexSum(s[..|s| - 1], !doubled, k) + Contribution(s[|s| - 1], doubled)
    decreases |s| - k
  {
    var n := |s|;
    if k < n - 1 {
      IndexSumDropLast(s, doubled, k + 1);
      assert DoubledAt(n - 1, k, !doubled) == DoubledAt(n, k, doubled);
    }
  }

  /** The right-to-left definition of the Luhn sum agrees with the
      left-to-right reading by position. */
  lemma {:induction false} LuhnFromByIndex(s: string, doubled: bool)
    ensures LuhnFrom(s, doubled) == IndexSum(s, doubled, 0)
    decreases |s|
  {
    if |s| > 0 {
      LuhnFromByIndex(s[..|s| - 1], !doubled);
      IndexSumDropLast(s, doubled, 0);
    }
  }

  /** For a number of `IdLength` characters, the characters at odd indices
      counted from the left are the doubled ones. */
  lemma LuhnSumOfThirteen(s: string)
    requires |s| == IdLength
    ensures LuhnSum(s)
         == Contribution(s[0], false) + Contribution(s[1], true) + Contribution(s[2], false)
          + Contribution(s[3], true) + Contribution(s[4], false) + Contribution(s[5], true)
          + Contribution(s[6], false) + Contribution(s[7], true) + Contribution(s[8], false)
          + Contribution(s[9], true) + Contribution(s[10], false) + Contribution(s[11], true)
          + Contribution(s[12], false)
  {
    LuhnFromByIndex(s, false);
    assert IndexSum(s, false, 12) == Contribution(s[12], false);
    assert IndexSum(s, false, 11) == Contribution(s[11], true) + IndexSum(s, false, 12);
    assert IndexSum(s, false, 10) == Contribution(s[10], false) + IndexSum(s, false, 11);
    assert IndexSum(s, false, 9) == Contribution(s[9], true) + IndexSum(s, false, 10);
    assert IndexSum(s, false, 8) == Contribution(s[8], false) + IndexSum(s, false, 9);
    assert IndexSum(s, false, 7) == Contribution(s[7], true) + IndexSum(s, false, 8);
    assert IndexSum(s, false, 6) == Contribution(s[6], false) + IndexSum(s, false, 7);
    assert IndexSum(s, false, 5) == Contribution(s[5], true) + IndexSum(s, false, 6);
    assert IndexSum(s, false, 4) == Contribution(s[4], false) + IndexSum(s, false, 5);
    assert IndexSum(s, false, 3) == Contribution(s[3], true) + IndexSum(s, false, 4);
    assert IndexSum(s, false, 2) == Contribution(s[2], false) + IndexSum(s, false, 3);
    assert IndexSum(s, false, 1) == Contribution(s[1], true) + IndexSum(s, false, 2);
  }

  /** Replacing one character changes the Luhn sum by the difference of the
      two characters' contributions at that position, and by nothing else. */
  lemma {:induction false} LuhnFromUpdate(s: string, k: nat, c: char, doubled: bool)
    requires k < |s|
    ensures LuhnFrom(s[k := c], doubled) - LuhnFrom(s, doubled)
         == Contribution(c, DoubledAt(|s|, k, doubled)) - Contribution(s[k], DoubledAt(|s|, k, doubled))
  {
    var n := |s|;
    var t := s[k := c];
    if k == n - 1 {
      assert t[..n - 1] == s[..n - 1];
    } else {
      assert t[..n - 1] == s[..n - 1][k := c];
      LuhnFromUpdate(s[..n - 1], k, c, !doubled);
      assert DoubledAt(n - 1, k, !doubled) == DoubledAt(n, k, doubled);
    }
  }

  /** On digits, each character's contribution determines the digit, doubled or not. */
  lemma ContributionInjective(a: char, b: char, doubled: bool)
    requires IsDigit(a) && IsDigit(b) && a != b
    ensures Contribution(a, doubled) != Contribution(b, doubled)
  {
  }

  /** The checksum catches every single-digit substitution: changing one digit
      of a valid number into a different digit makes it invalid. */
  lemma SubstitutionDetected(id: string, k: nat, c: char)
    requires Valid(id) && k < |id|
    requires IsDigit(id[k]) && IsDigit(c) && c != id[k]
    ensures !Valid(id[k := c])
  {
    var p := DoubledAt(|id|, k, false);
    LuhnFromUpdate(id, k, c, false);
    ContributionInjective(c, id[k], p);
    NonzeroShiftBreaksMultiple(LuhnSum(id), Contribution(c, p) - Contribution(id[k], p));
  }

  /** Adding a nonzero amount smaller than 10 in magnitude to a multiple of 10
      never gives a multiple of 10. */
  lemma NonzeroShiftBreaksMultiple(a: int, d: int)
    requires a % 10 == 0 && -9 <= d <= 9 && d != 0
    ensures (a + d) % 10 != 0
  {
  }

  /** A non-digit character is not rejected: it counts exactly as a '0' would. */
  lemma NonDigitCountsAsZero(id: string, k: nat, c: char)
    requires k < |id| && !IsDigit(c)
    ensures Valid(id[k := c]) <==> Valid(id[k := '0'])
  {
    LuhnFromUpdate(id, k, c, false);
    LuhnFromUpdate(id, k, '0', false);
  }

  /** The digit that completes a 12-character payload to a valid number. */
  function CheckDigit(payload: string): (c: char)
    ensures IsDigit(c)
    ensures (DigitValue(c) + LuhnFrom(payload, true)) % 10 == 0
  {
    ('0' as int + (10 - LuhnFrom(payload, true) % 10) % 10) as char
  }

  /** Exactly one final digit makes a 12-character payload a valid number. */
  lemma CheckDigitIsUnique(payload: string, c: char)
    requires |payload| == IdLength - 1 && IsDigit(c)
    ensures Valid(payload + [c]) <==> c == CheckDigit(payload)
  {
  }

  // ---------------------------------------------------------------------
  // Gender and citizenship
  // ---------------------------------------------------------------------

  /** The holder's gender from the character at index 6, behind the checksum gate. */
  function Gender(id: string): (r: Outcome<string>)
    ensures r.err == (if Valid(id) then None else Some(InvalidId))
    ensures !Valid(id) ==> r.value == ""
    ensures Valid(id) ==> r.value == (if id[6] in "56789" then "male" else "female")
  {
    if !Valid(id) then Outcome("", Some(InvalidId))
    else if DigitValue(id[6]) < 5 then Outcome("female", None)
    else Outcome("male", None)
  }

  /** Citizenship from the one-byte string at index 10, compared with "0" as a string. */
  function IsCitizen(id: string): (r: Outcome<bool>)
    ensures r.err == (if Valid(id) then None else Some(InvalidId))
    ensures !Valid(id) ==> !r.value
    ensures Valid(id) ==> (r.value <==> id[10] == '0')
  {
    if !Valid(id) then Outcome(false, Some(InvalidId))
    else Outcome(id[10..11] == "0", None)
  }

  // ---------------------------------------------------------------------
  // Date of birth
  // ---------------------------------------------------------------------

  /** `strconv.Atoi` of a two-byte string with its error discarded: an optional
      sign followed by one digit, or two digits; anything else gives 0. */
  function Atoi2(a: char, b: char): (v: int)
    ensures -9 <= v <= 99
    ensures IsDigit(a) && IsDigit(b) ==> v == 10 * DigitValue(a) + DigitValue(b)
    ensures (a == '+' || a == '-') && IsDigit(b)
        ==> v == (if a == '-' then -DigitValue(b) else DigitValue(b))
    ensures !IsDigit(a) && a != '+' && a != '-' ==> v == 0
    ensures !IsDigit(b) ==> v == 0
    ensures v < 0 ==> a == '-'
  {
    if (a == '+' || a == '-') && IsDigit(b) then
      (if a == '-' then -DigitValue(b) else DigitValue(b))
    else if IsDigit(a) && IsDigit(b) then 10 * DigitValue(a) + DigitValue(b)
    else 0
  }

  /** The Gregorian leap-year rule of Go's `time` package. Only whether a
      remainder is zero matters, so Euclidean and truncating `%` agree. */
  predicate IsLeapYear(year: int)
  {
    year % 4 == 0 && (year % 100 != 0 || year % 400 == 0)
  }

  function DaysInMonth(month: int, year: int): (n: int)
    requires 1 <= month <= 12
    ensures 28 <= n <= 31
    ensures n < 30 <==> month == 2
    ensures n == 29 <==> month == 2 && IsLeapYear(year)
    ensures n == 31 <==> month in {1, 3, 5, 7, 8, 10, 12}
  {
    if month == 2 then (if IsLeapYear(year) then 29 else 28)
    else if month in {4, 6, 9, 11} then 30
    else 31
  }

  /** Whether `d` names a real day of the proleptic Gregorian calendar. */
  predicate IsCalendarDate(d: Date)
  {
    1 <= d.month <= 12 && 1 <= d.day <= DaysInMonth(d.month, d.year)
  }

  /** Go's "2006" layout element reads exactly four digits, so the formatted
      year parses back only when it has four digits. */
  predicate FourDigitYear(year: int)
  {
    1000 <= year <= 9999
  }

  /** Lexicographic "strictly after" on (year, month, day). */
  predicate DateAfter(a: Date, b: Date)
  {
    a.year > b.year
    || (a.year == b.year && (a.month > b.month || (a.month == b.month && a.day > b.day)))
  }

  /** `(year / 100) * 100` with Go's division, which truncates toward zero. */
  function Century(year: int): (c: int)
    ensures c % 100 == 0
    ensures year >= 0 ==> c <= year < c + 100
    ensures year < 0 ==> year <= c < year + 100
  {
    if year >= 0 then (year / 100) * 100 else -(((-year) / 100) * 100)
  }

  /** The day exactly `MinimumAge` years before `now`. */
  function EligibleDate(now: Date): (eligible: Date)
  {
    Date(now.year - MinimumAge, now.month, now.day)
  }

  /** The century rule: take the two-digit year in the current century, and
      move it back one century when that date would fall after the day exactly
      `MinimumAge` years before `now`. */
  function ResolveYear(yy: int, month: int, day: int, now: Date): (year: int)
    ensures year == Century(now.year) + yy || year == Century(now.year) + yy - 100
    ensures year == Century(now.year) + yy - 100
        <==> DateAfter(Date(Century(now.year) + yy, month, day), EligibleDate(now))
  {
    var candidate := Century(now.year) + yy;
    if DateAfter(Date(candidate, month, day), EligibleDate(now)) then candidate - 100 else candidate
  }

  /** For a two-digit year the rule keeps the last two digits, never reaches
      back a full century before the eligibility day, and lands on or before
      the eligibility day exactly when the previous century's candidate does. */
  lemma CenturyRule(yy: int, month: int, day: int, now: Date)
    requires 0 <= yy <= 99 && now.year >= 0
    ensures ResolveYear(yy, month, day, now) % 100 == yy
    ensures DateAfter(Date(ResolveYear(yy, month, day, now), month, day),
                      Date(EligibleDate(now).year - 100, now.month, now.day))
    ensures !DateAfter(Date(Century(now.year) + yy - 100, month, day), EligibleDate(now))
        <==> !DateAfter(Date(ResolveYear(yy, month, day, now), month, day), EligibleDate(now))
  {
  }

  /** Within the hundred-year window that ends on the eligibility day, at most
      one year has a given pair of final digits; so whenever the rule lands in
      the window it has picked the only possible year. */
  lemma WindowYearIsUnique(y1: int, y2: int, month: int, day: int, now: Date)
    requires y1 % 100 == y2 % 100
    requires DateAfter(Date(y1, month, day), Date(EligibleDate(now).year - 100, now.month, now.day))
    requires DateAfter(Date(y2, month, day), Date(EligibleDate(now).year - 100, now.month, now.day))
    requires !DateAfter(Date(y1, month, day), EligibleDate(now))
    requires !DateAfter(Date(y2, month, day), EligibleDate(now))
    ensures y1 == y2
  {
  }

  /** The three two-byte fields of the date: year of century, month and day. */
  function DateFields(id: string): (fields: (int, int, int))
    requires |id| >= 6
  {
    (Atoi2(id[0], id[1]), Atoi2(id[2], id[3]), Atoi2(id[4], id[5]))
  }

  /** The date of birth behind the checksum gate: resolve the century, then
      accept the date only when it is a real calendar day.  On either error
      the value returned is `now`. */
  function BirthDate(id: string, now: Date): (r: Outcome<Date>)
    ensures !Valid(id) ==> r == Outcome(now, Some(InvalidId))
    ensures Valid(id) ==> r.err != Some(InvalidId)
    ensures r.err == Some(DateParse) ==> r.value == now
    ensures Valid(id) ==>
      var (yy, mm, dd) := DateFields(id);
      var year := ResolveYear(yy, mm, dd, now);
      (r.err == None <==> FourDigitYear(year) && IsCalendarDate(Date(year, mm, dd)))
      && (r.err == None ==> r.value == Date(year, mm, dd))
  {
    if !Valid(id) then Outcome(now, Some(InvalidId))
    else
      var (yy, mm, dd) := DateFields(id);
      var year := ResolveYear(yy, mm, dd, now);
      var dob := Date(year, mm, dd);
      if FourDigitYear(year) && IsCalendarDate(dob) then Outcome(dob, None)
      else Outcome(now, Some(DateParse))
  }

  /** For a valid number whose first six characters are digits, and a
      reference year with four digits from 1200 on, the date of birth is
      accepted exactly when the month is 1..12 and the day exists in that
      month; it then carries the written month, day and final two year digits,
      and lies after the day a century before eligibility. */
  lemma BirthDateOfDigits(id: string, now: Date)
    requires Valid(id)
    requires forall k :: 0 <= k < 6 ==> IsDigit(id[k])
    requires 1200 <= now.year <= 9999
    ensures var r := BirthDate(id, now);
      var yy := 10 * DigitValue(id[0]) + DigitValue(id[1]);
      var mm := 10 * DigitValue(id[2]) + DigitValue(id[3]);
      var dd := 10 * DigitValue(id[4]) + DigitValue(id[5]);
      (r.err == None <==> 1 <= mm <= 12 && 1 <= dd <= DaysInMonth(mm, ResolveYear(yy, mm, dd, now)))
      && (r.err == None ==>
            r.value.year % 100 == yy && r.value.month == mm && r.value.day == dd
            && DateAfter(r.value, Date(EligibleDate(now).year - 100, now.month, now.day)))
  {
    var (yy, mm, dd) := DateFields(id);
    assert IsDigit(id[0]) && IsDigit(id[1]) && IsDigit(id[2]);
    assert IsDigit(id[3]) && IsDigit(id[4]) && IsDigit(id[5]);
    CenturyRule(yy, mm, dd, now);
    assert FourDigitYear(ResolveYear(yy, mm, dd, now));
  }

  // ---------------------------------------------------------------------
  // Parse
  // ---------------------------------------------------------------------

  /** All three decoders behind one checksum gate; the decoders' own errors
      are discarded. */
  function Parse(id: string, now: Date): (r: Outcome<Details>)
    ensures r.err == (if Valid(id) then None else Some(InvalidId))
    ensures !Valid(id) ==> r.value == Details(ZeroDate, "", false)
  {
    if !Valid(id) then Outcome(Details(ZeroDate, "", false), Some(InvalidId))
    else
      var dob := BirthDate(id, now).value;
      var gender := Gender(id).value;
      var citizen := IsCitizen(id).value;
      Outcome(Details(dob, gender, citizen), None)
  }

  /** `Parse` of a valid number never fails: its fields are the decoders'
      values, and an impossible date of birth turns into `now`. */
  lemma ParseAgreesWithDecoders(id: string, now: Date)
    requires Valid(id)
    ensures Parse(id, now).err == None
    ensures Parse(id, now).value.gender == Gender(id).value
    ensures Parse(id, now).value.gender in {"female", "male"}
    ensures Parse(id, now).value.citizen == IsCitizen(id).value
    ensures Parse(id, now).value.dob == BirthDate(id, now).value
    ensures BirthDate(id, now).err == Some(DateParse) ==> Parse(id, now).value.dob == now
  {
  }
}
