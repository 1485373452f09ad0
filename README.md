# Star dates from Earth dates, in Dafny

This project models the arithmetic core of the `stardatetime` Python library. The library turns
an Earth calendar date into a "star date": the year counted from the epoch 2323, times 1000,
plus the part of a 365-day year that has passed since January 1, times 1000. 2015-01-01 is
star date -308000 and 2014-12-31 is -308002.7.

The library has three versions of this computation, and the model covers each:

- `earth_date_to_star_date` (stardatetime/conversion.py) rounds the star day to one decimal.
  The model keeps the result as a whole number of tenths (`Conversion`).
- `StarDate` (stardatetime/stardatetime.py) stores the unrounded star date once, at
  construction. Its `__sub__` turns a date difference into a `StarTimeDelta`, whose `__repr__`
  shows the delta in star days to four decimals (`StarDateTime`).
- The older `StarDate` of stardate/stardate.py splits the value into a star year and a star
  day (`LegacyStarDate`). `__sub__`, `_calculate_star_day` and `__init__` are modelled twice:
  as written, where they raise NameError, and as evidently intended. `_calculate_star_year`
  never raises and is modelled once; `__repr__` is modelled as intended only.

The library relies on Python's `datetime.date`. `Calendar` models the parts it uses:

- validation by `date(year, month, day)`, with years 1 to 9999 and the Gregorian leap rule;
- the number of days elapsed since January 1;
- `toordinal`;
- subtraction of two dates.

`Rounding` models Python's `round` on an exact fraction. The code targets Python 2.7: it uses
`from __future__` imports, and on Python 3 `StarDate.__init__`'s call of `object.__init__` with
arguments is a TypeError. So the model uses Python 2.7's rounding, which sends a tie away from
zero. Every divisor here is 365, which is odd, so no exact tie can occur. The lemma
`Rounding.RoundingsAgreeOnOddDivisor` proves that Python 3's half-to-even rule and rounding
half up give the same integer.

Values are exact. The rounded results are integers in tenths or ten-thousandths. The unrounded
`stardate` is a Dafny `real`, because stardatetime/stardatetime.py:17 makes `/` true division.
Every value is immutable. The star date `StarDate.__init__` stores is a datatype field, and
every value `StarDateTime.New` builds satisfies `StarDate.Valid()`, which ties that field to the
date.

The star day divides by 365 in leap years too. December 31 of a leap year is day 366, so it is
star day 1000.0 and meets January 1 of the next year: 2016-12-31 and 2017-01-01 both give star
date −306000.0 (`Conversion.LeapYearEndMeetsNextYear`). Star dates therefore increase strictly
only within one year (`Conversion.StarDateIsIncreasingWithinYear`); across a leap year's end two dates share a value.

Where the code and its documentation disagree, the model follows the code:

- `StarDate.stardate` is the unrounded value that stardatetime/stardatetime.py:77 computes. It
  is not equal to the rounded `earth_date_to_star_date`. `StarDateTime.StardateIsNotRounded`
  shows the difference on 2014-12-31, and
  `StarDateTime.StardateIsWithinRoundingOfConversion` proves that the two always differ by
  less than 0.05.
- The docstring at stardatetime/stardatetime.py:47-48 allows year 0, but `date` rejects it.
  The model rejects it too (`Conversion.InvalidDatesRaise`).

## Model

| member | source | states |
|---|---|---|
| `Rounding.RoundHalfUp` | stardatetime/conversion.py:20 | floor(n/d + 1/2) is an integer nearest n/d, and a tie is never rounded down |
| `Rounding.RoundHalfAway` | stardatetime/conversion.py:20 | Python 2.7 `round`: an integer nearest n/d; a tie goes up only for positive n and down only for negative n (away from zero) |
| `Rounding.RoundHalfEven` | stardatetime/conversion.py:20 | Python 3 `round`: an integer nearest n/d; when it is not strictly nearest (a tie) it is even |
| `Rounding.NearestIsUnique` | stardatetime/conversion.py:20 | a strictly nearest integer is the only nearest one |
| `Rounding.OddDivisorHasNoTie` | stardatetime/conversion.py:20 | with an odd divisor every nearest integer is strictly nearest, so no tie exists |
| `Rounding.RoundingsAgreeOnOddDivisor` | stardatetime/conversion.py:20 | for odd divisors, Python 2's and Python 3's rounding and rounding half up give the same integer |
| `Rounding.RoundHalfAwayIsOdd` | stardatetime/stardatetime.py:104 | round(-x) == -round(x) |
| `Calendar.Date.Valid` | stardatetime/conversion.py:17-18 | a valid date has a day from 1 to 31, at most 29 in February, and February 29 only in a leap year |
| `Calendar.MakeDate` | stardatetime/conversion.py:17-18 | `date(y, m, d)` succeeds exactly for a valid date (year 1..9999, month 1..12, day within the month, Gregorian leap rule) and then holds those fields; otherwise it raises ValueError for the first field out of range, checking year, then month, then day |
| `Calendar.DaysElapsedInYear` | stardatetime/conversion.py:19 | the day count since January 1 lies in [0, days in the year − 1] and reaches the top exactly on December 31 |
| `Calendar.Ordinal` | stardatetime/stardatetime.py:67 | `toordinal` of a valid date is at least 1 |
| `Calendar.Subtract` | stardatetime/stardatetime.py:67 | date minus date is a whole number of days, with zero seconds and microseconds |
| `Calendar.DaysBeforeMonthIsSum` | stardatetime/conversion.py:19 | the days-before-month table equals the sum of the preceding month lengths, leap day included |
| `Calendar.TwelveMonthsMakeYear` | stardatetime/conversion.py:19 | the twelve month lengths add up to 365 or, in a leap year, 366 |
| `Calendar.YearStep` | stardatetime/stardatetime.py:67 | the closed-form days-before-year grows by exactly the length of each year |
| `Calendar.DaysElapsedIsIncreasing` | stardatetime/conversion.py:19 | within a year a later date has strictly more days elapsed |
| `Calendar.SubtractNewYear` | stardatetime/conversion.py:17-19 | date minus January 1 of its year is the number of days elapsed in the year |
| `Calendar.OrdinalIsIncreasing` | stardatetime/stardatetime.py:67 | ordinals follow calendar order, across years too |
| `Calendar.SubtractSign` | stardatetime/stardatetime.py:67 | a − b is 0 exactly when a == b, positive exactly when b is earlier, and negative exactly when a is earlier |
| `Calendar.OrdinalExamples` | stardatetime/stardatetime.py:67 | 2015-01-01 is day 735599 and 2014-12-31 is day 735598 |
| `Conversion.StarYearZeroIsBaseYear` | stardatetime/stardatetime.py:41 | BASE_YEAR 2323 is star year 0: a star date lies in [0, 1000) exactly for dates in Earth year 2323 |
| `Conversion.StarDayTenths` | stardatetime/conversion.py:20 | `round(days / 365.0 * 1000, 1)`, in tenths, is the strictly nearest integer to days·10000/365 |
| `Conversion.EarthDateToStarDate` | stardatetime/conversion.py:5-21 | succeeds exactly for valid dates; an invalid date fails with the ValueError of `date(...)` |
| `Conversion.EarthDateToStarDateIsNearest` | stardatetime/conversion.py:16-21 | the result is the one whole number of tenths nearest the exact (year − 2323)·1000 + days/365·1000; no other number of tenths is as near |
| `Conversion.Doctests` | stardatetime/conversion.py:8-13 | 2323-01-01 ↦ 0.0, 2015-01-01 ↦ −308000.0, 2014-12-31 ↦ −308002.7 |
| `Conversion.JanuaryFirstStartsStarYear` | stardatetime/conversion.py:16-21 | January 1 of every valid year maps to exactly (year − 2323)·1000 |
| `Conversion.StarDayRange` | stardatetime/conversion.py:19-20 | the star day lies in [0, 1000] and is 1000 exactly on December 31 of a leap year |
| `Conversion.StarDateIsIncreasingWithinYear` | stardatetime/conversion.py:19-21 | within one year a later date has a strictly larger rounded star date |
| `Conversion.LeapYearEndMeetsNextYear` | stardatetime/conversion.py:19-20 | 2016-12-31 and 2017-01-01 both map to −306000.0: the fixed divisor 365 lets a leap year's last day meet the next January 1 |
| `Conversion.InvalidDatesRaise` | stardatetime/conversion.py:17-18 | year 0, month 13 and 2015-02-29 raise ValueError (year, month, day respectively); 2016-02-29 converts |
| `StarDateTime.StarTimeDelta.ReprValue` | stardatetime/stardatetime.py:102-104 | `round(days / 365.0 * 1000, 4)`, in units of 10⁻⁴, is the strictly nearest integer to days·10⁷/365 |
| `StarDateTime.ConvertToStardate` | stardatetime/stardatetime.py:72-78 | the stored star date is exactly (year − 2323)·1000 + days elapsed·1000/365, with no rounding, and lies in [star year·1000, star year·1000 + 1000] |
| `StarDateTime.New` | stardatetime/stardatetime.py:43-59 | construction succeeds exactly for a valid date and yields an object whose stored star date is its conversion; an out-of-range field raises ValueError and yields no object |
| `StarDateTime.Sub` | stardatetime/stardatetime.py:65-70 | a − other, wrapped by `StarDateTime.Wrap` into a StarTimeDelta, has the ordinal difference as days, with seconds and microseconds 0 |
| `StarDateTime.StardateFromSubtraction` | stardatetime/stardatetime.py:74-77 | stardate == (year − 2323)·1000 + (self − January 1).days/365·1000, tying the stored value to subtraction |
| `StarDateTime.UnitTests` | stardatetime/tests/test_stardatetime.py:9-15 | StarDate(2015, 1, 1).stardate == −308000, and StarDate(2015, 13, 1) raises ValueError |
| `StarDateTime.StardateIsWithinRoundingOfConversion` | stardatetime/stardatetime.py:72-78 | the stored star date and `earth_date_to_star_date` of the same date differ by less than 0.05 |
| `StarDateTime.StardateIsNotRounded` | stardatetime/stardatetime.py:77 | on 2014-12-31 the stored value is 364000/365 − 309000, not −308002.7 |
| `StarDateTime.SubSelfIsZero` | stardatetime/stardatetime.py:65-70 | a − a is the zero delta, whose repr value is 0 |
| `StarDateTime.SubIsAntisymmetric` | stardatetime/stardatetime.py:65-70 | (a − b).days == −(b − a).days, and their repr values are negatives of each other |
| `StarDateTime.SubSign` | stardatetime/stardatetime.py:65-70 | the delta is positive, negative or zero exactly when the other date is earlier, later or the same |
| `StarDateTime.SubIsAdditive` | stardatetime/stardatetime.py:65-70 | (a − b).days + (b − c).days == (a − c).days |
| `StarDateTime.ReprValueIgnoresTime` | stardatetime/stardatetime.py:102-104 | the repr value depends on days only, not on seconds or microseconds |
| `StarDateTime.ReprValueIsOdd` | stardatetime/stardatetime.py:104 | negating the days negates the repr value |
| `StarDateTime.ReprValueIsWithinRounding` | stardatetime/stardatetime.py:104 | the repr value, read as star days, is within 0.00005 of days/365·1000 |
| `StarDateTime.ReprValueExamples` | stardatetime/stardatetime.py:104 | 1 day ↦ 2.7397, 365 days ↦ 1000.0, −1 day ↦ −2.7397 |
| `LegacyStarDate.CalculateStarYear` | stardate/stardate.py:23-24 | the star year times 1000 is the star date of January 1 of that year |
| `LegacyStarDate.CalculateStarDayAsWritten` | stardate/stardate.py:26-27 | as written, `_calculate_star_day` raises NameError for every valid date, from the subtraction in its first line |
| `LegacyStarDate.ReprValue` | stardate/stardate.py:12-15 | star_year·1000 + star_day, in tenths, is the strictly nearest number of tenths to the exact (year − 2323)·1000 + days elapsed/365·1000 |
| `LegacyStarDate.InitAsWritten` | stardate/stardate.py:7-10 | as written, construction fails for every input: NameError for a valid date, the ValueError of `date(...)` for an invalid one |
| `LegacyStarDate.SubtractionAlwaysRaises` | stardate/stardate.py:17-28 | as written (`LegacyStarDate.SubAsWritten`), `__sub__` and `_calculate_star_day` (which subtracts January 1) raise NameError for every valid date, while the intended `__sub__` gives the ordinal difference |
| `LegacyStarDate.Sub` | stardate/stardate.py:17-21 | as intended, a − other has the ordinal difference as days, with seconds and microseconds 0 |
| `LegacyStarDate.CalculateStarDay` | stardate/stardate.py:26-28 | as intended, the star day, in tenths, lies in [0, 1000] and is the strictly nearest number of tenths to days elapsed/365·1000 |
| `LegacyStarDate.Init` | stardate/stardate.py:7-10 | as intended, construction succeeds exactly for a valid date and stores that date, star_year == year − 2323, and a star_day in [0, 1000] that is the strictly nearest number of tenths to days elapsed/365·1000; otherwise it raises the ValueError of `date(...)` |
| `LegacyStarDate.ConstructionAlwaysRaises` | stardate/stardate.py:7-10 | as written, construction never succeeds: NameError exactly for a valid date, ValueError otherwise |
| `LegacyStarDate.ConstructionOf2015Raises` | stardate/stardate.py:7-10 | StarDate(2015, 1, 1) raises NameError as written; as intended it stores star year −308 and star day 0 |
| `LegacyStarDate.ReprValueIsConversion` | stardate/stardate.py:12-15 | star_year·1000 + star_day equals `earth_date_to_star_date` for every valid date |
| `LegacyStarDate.ReprRecomputesStoredFields` | stardate/stardate.py:8-14 | field by field, the star_year and star_day that `__repr__` recomputes equal the ones `__init__` stored; the rendered star_year·1000 + star_day is the stored fields' sum and equals `earth_date_to_star_date` |

## Left out

- `StarTime` and `StarDateTime` (stardatetime/stardatetime.py:81-88) are empty subclasses of `time` and `datetime`. They have no star-time attribute, so no time-of-day conversion is modelled.
- stardatetime/stardate.py is not part of this model. Its `__init__` reads undefined names, and the rest repeats `__sub__` and `StarTimeDelta.__repr__`.
- The `StarTimeDelta` of stardate/stardate.py:31-34 uses the same `__repr__` formula as the one in stardatetime/stardatetime.py, so `StarDateTime.StarTimeDelta` stands for both.
- `StarDate.__repr__` ("%.1f" formatting) and the `str` of `StarTimeDelta.__repr__` are not modelled. The model covers the numbers they render, not the text.
- Floating-point representation error is not modelled. The library computes in binary floating point; the model computes exactly, in integers of tenths or ten-thousandths and in `real`.
- `timedelta`'s normalisation of seconds and microseconds is not modelled. A date difference always has zero seconds and microseconds, and `Calendar.TimeDelta` holds the fields unchanged.
- `StarDateTime.Sub`: the right operand is always a date. Subtracting a timedelta from a StarDate gives a date, not a delta. Its `.days` access then fails, and that path is not modelled.
- Non-integer arguments are not modelled: the model takes `int` fields. On Python 2.7 `date()` truncates a float field (with a DeprecationWarning), so `date(2015.5, 1, 1)` is `date(2015, 1, 1)`; arguments of other types raise TypeError.
- Calendar.MakeDate: `date()` reads its three fields as C ints before checking any range, so a field outside [−2³¹, 2³¹ − 1] raises OverflowError, even when an earlier field is already out of range. The model's integers are unbounded and report such fields as the range ValueError (`MakeDate(2147483648, 1, 1)` is `Failure(YearOutOfRange)`). `Conversion.EarthDateToStarDate`, `StarDateTime.New`, `LegacyStarDate.Init` and `LegacyStarDate.InitAsWritten` take their failures from `MakeDate` and share this gap.
- Running on Python 3 is not modelled: it makes `StarDate.__init__` raise TypeError.
- The rest of `datetime` is not modelled: time and datetime arithmetic, and calendar features other than validation, day of year and ordinal.
- stardatetime/__init__.py and the test file are not modelled: the first only re-exports, and the tests serve as evidence for properties.

## Findings

| source | as written | input that shows it | evidently intended | confidence | as-written member | corrected member |
|---|---|---|---|---|---|---|
| stardate/stardate.py:10 | `super(Stardate, self)` (here and at line 18) names an undefined class. So `__sub__` raises NameError, and so do `_calculate_star_day` (line 27 subtracts) and `__init__` (line 9) | `StarDate(2015, 1, 1)` | `super(StarDate, self)`: the object is built with star_year −308 and star_day 0.0 | high; not executed | `LegacyStarDate.ConstructionAlwaysRaises` | `LegacyStarDate.Init` |
