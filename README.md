# rsaid in Dafny

A model of the Go package `rsaid`, which validates and decodes 13-character
South African identity numbers. Everything lives in module `RsaId`
(`rsaid.dfy`). The package's test vectors, plus a few boundary inputs, are in
module `RsaIdExamples` (`rsaid_examples.dfy`).

- **Checksum.** `IsValid` is the Luhn mod-10 check, the "double-add-double" check digit of ISO/IEC 7812-1, Annex B.
  - It is a method whose loop keeps the source's right-to-left walk and alternating flag.
  - It is proved equal to the predicate `Valid`, which is defined by the recursive sum `LuhnFrom`.
  - Lemmas show that the sum agrees with a left-to-right reading by position.
  - They show that every single-digit substitution is caught.
  - They show that exactly one final digit completes a 12-character payload.
  - They show that a non-digit byte counts as zero.
- **Gender and citizenship.** `Gender` and `IsCitizen` decode one byte each, behind the checksum gate.
- **Date of birth.** `BirthDate` reads the two-byte year, month and day fields with Go's `strconv.Atoi` semantics (`Atoi2`).
  - It resolves the century with the "at least 16 years old" rule (`ResolveYear`).
  - It then accepts only a real Gregorian calendar day.
  - `CenturyRule` and `WindowYearIsUnique` state what the rule achieves.
- **Parse.** `Parse` combines the three decoders. It fails only on the checksum.

Go returns a value together with an error. `Outcome<T>` models that pair, so
the value returned beside an error is modelled exactly: `""`, `false`, the
reference date, or Go's zero date.

Every read of the clock becomes a parameter `now: Date`. An identity number is
the byte sequence of the Go string, one `char` per byte.

Where the code and the package's stated intent disagree, the model follows the code:

- Non-digit characters are not rejected by the checksum. Each one counts as 0. See `NonDigitCountsAsZero` and `RsaIdExamples.NonDigitAccepted`.
- `Parse` discards `BirthDate`'s error. A checksum-valid number with an impossible date therefore parses successfully, with the reference date as its date of birth. See `RsaIdExamples.ImpossibleDateVector`.
- The test vector `9502305120008`, meant as an impossible date, actually fails the checksum: its Luhn sum is 34. `9502305120004` is the checksum-valid version of that date.
- The century rule moves a year back by at most one century. Consider a reference date whose year ends in 00..15. A number with a late two-digit year can then resolve to a holder younger than 16: on 1 January 2010, a June '99 birth resolves to 1999. See `RsaIdExamples.SingleShiftCanLeaveMinor`. `CenturyRule` states exactly when the result lies on or before the eligibility day.

## Model

| member | source | states |
|---|---|---|
| `RsaId.IsValid` | main.go:19-38 | the loop's result is exactly the checksum rule: length 13 and Luhn sum divisible by 10; any other length is rejected |
| `RsaId.DigitValue` | main.go:27 | a one-byte `Atoi` with its error discarded: a digit yields its own value (the digit character is '0' plus the result), and any other byte yields 0 |
| `RsaId.Contribution` | main.go:27-33 | an undoubled character adds its digit value; a doubled one adds the digit sum of twice its value |
| `RsaId.LuhnFromByIndex` | main.go:26-36 | the right-to-left alternating sum equals the sum by position, where a position is doubled when its distance from the end is odd |
| `RsaId.LuhnSumOfThirteen` | main.go:26-36 | for a 13-character number, exactly the characters at odd indices from the left are doubled |
| `RsaId.LuhnFromUpdate` | main.go:26-36 | replacing one character changes the sum only by the difference of the two characters' contributions at that position |
| `RsaId.ContributionInjective` | main.go:28-33 | doubled or not, distinct digits contribute distinct values |
| `RsaId.SubstitutionDetected` | main.go:26-37 | changing one digit of a valid number into another digit always makes it invalid |
| `RsaId.NonDigitCountsAsZero` | main.go:27 | a non-digit byte at any position is accepted or rejected exactly as a '0' there would be |
| `RsaId.CheckDigit` | main.go:37 | the digit that brings a 12-character payload's sum to a multiple of 10 |
| `RsaId.CheckDigitIsUnique` | main.go:26-37 | a 12-character payload followed by a digit is valid if and only if that digit is the check digit |
| `RsaId.Gender` | main.go:44-54 | invalid-number error exactly when the checksum fails, with value ""; otherwise "male" when the byte at index 6 is 5..9, and "female" for 0..4 or a non-digit |
| `RsaId.IsCitizen` | main.go:60-66 | invalid-number error exactly when the checksum fails, with value false; otherwise true exactly when the byte at index 10 is '0' |
| `RsaId.Atoi2` | main.go:82-85 | a two-byte `Atoi` with its error discarded: two digits give their value; a sign followed by a digit gives the signed digit; anything else gives 0; always -9..99 |
| `RsaId.DaysInMonth` | main.go:97-98 | month lengths are 28..31: 31 for months 1, 3, 5, 7, 8, 10 and 12; 30 for the other months except February; 29 for February exactly in a Gregorian leap year |
| `RsaId.Century` | main.go:79 | the current century uses truncating division: a multiple of 100 within 100 years of the current year |
| `RsaId.ResolveYear` | main.go:83-92 | the year is the current-century candidate, or 100 less exactly when the candidate date is lexicographically after the day 16 years before `now` |
| `RsaId.CenturyRule` | main.go:87-92 | for a two-digit year, the resolved year keeps those digits. The date lies after the day a century before eligibility. It lies on or before the eligibility day exactly when the previous-century candidate does |
| `RsaId.WindowYearIsUnique` | main.go:87-92 | at most one year with given final digits places the date in the hundred-year window ending on the eligibility day |
| `RsaId.BirthDate` | main.go:72-102 | invalid-number error with value `now` exactly when the checksum fails. Otherwise success exactly when the resolved year has four digits and the date is a calendar day, returning (resolved year, month, day); else a date error with value `now` |
| `RsaId.BirthDateOfDigits` | main.go:81-101 | for digit fields and a reference year in 1200..9999: success exactly when the month is 1..12 and the day exists in that month; the result carries the written month, day and last two year digits |
| `RsaId.Parse` | main.go:107-119 | invalid-number error with the zero record exactly when the checksum fails; no other error |
| `RsaId.ParseAgreesWithDecoders` | main.go:111-118 | for a valid number: no error, gender and citizenship equal the decoders' values, and the date equals `BirthDate`'s value, which is `now` when the date is impossible |
| `RsaIdExamples.ValidVectors` | main_test.go:9-13 | the male, female and non-citizen test numbers pass the checksum |
| `RsaIdExamples.InvalidVectors` | main_test.go:11-28 | the altered check digit and the short number fail the checksum; so does the impossible-date vector of main_test.go:11 and 72, whose sum is 34 |
| `RsaIdExamples.ImpossibleDateIsValid` | main.go:19-38 | 9502305120004 (30 February) passes the checksum |
| `RsaIdExamples.NonDigitAccepted` | main.go:27 | 95062451200x8 passes the checksum |
| `RsaIdExamples.GenderVectors` | main_test.go:31-42 | the male number gives "male", the female one "female", the invalid one the error |
| `RsaIdExamples.CitizenVectors` | main_test.go:44-56 | the citizen number gives true, the non-citizen false, the invalid one the error |
| `RsaIdExamples.BirthDateVector` | main_test.go:58-70 | for every reference year 2000..2099, which includes the test's days from 24 June 2011 on, the male number is born on 24 June 1995 |
| `RsaIdExamples.BirthDateVectorNextCentury` | main.go:79-92 | for reference years 2100..2199 the same number resolves to 24 June 2095: the century rule moves back at most one century |
| `RsaIdExamples.ImpossibleDateVector` | main.go:97-118 | 30 February gives a date error from `BirthDate` but a successful `Parse` whose date is `now` |
| `RsaIdExamples.ParseVectors` | main_test.go:78-93 | for reference years 2000..2099 the male number parses to (1995-06-24, "male", true); the invalid number gives the error and the zero record |
| `RsaIdExamples.CenturyBoundary` | main.go:88-92 | on 2026-10-15, a birth on 2010-10-15 stays in 2010, while one a day or a month later moves back to 1910 |
| `RsaIdExamples.SingleShiftCanLeaveMinor` | main.go:87-92 | on 2010-01-01, "99" in June resolves to 1999, and on 2015-01-01 "99" on 31 December does too; both dates are after the eligibility day |

## Left out

- Reading the live clock (`time.Now()`): every operation that uses it takes the reference date `now` as a parameter.
- `time.LoadLocation("Africa/Johannesburg")`, the time zone, and the failure path when the location cannot be loaded: these are calls into the OS time-zone database. Only the year/month/day triple is modelled.
- Hours, minutes and zone offsets of `time.Time`: a date is (year, month, day). Go's zero `time.Time` is modelled as 1 January of year 1.
- The text of the two error messages and the package variable `errorMessage`: these become the two error kinds `InvalidId` and `DateParse`.
- Go's parsing of years outside 1000..9999: the model accepts exactly four-digit years. Negative years are handled differently by different Go versions. Such years arise only for reference years outside 1200..9999.
- A Go string is a byte sequence: the model takes the number as its bytes, one `char` per byte. A multi-byte character therefore counts as several positions, as it does in Go.
- `BirthDateOfDigits`: restricted to digit characters in the date fields and to reference years 1200..9999. `BirthDate`'s own contract covers every input, including signed fields parsed by `Atoi2`.
- The package's test file as code: it refers to names the package does not define. Only its test vectors are used, as example lemmas.
