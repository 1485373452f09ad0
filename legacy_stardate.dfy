/** stardate/stardate.py: the older StarDate that splits the star date into a star year and a
    star day (tenths) stored at construction, and its StarTimeDelta, whose __repr__ formula is
    the one of stardatetime/stardatetime.py, so StarDateTime.StarTimeDelta stands for it.

    The file names the class `Stardate` where it means `StarDate` (in __init__ and in
    __sub__), so as written every subtraction raises NameError, and with it the star-day
    helper and construction. The members ending in AsWritten model that; the others model the
    evident intent, and the properties are proved about those. */
module LegacyStarDate {
  import opened Wrappers
  import opened Calendar
  import opened Rounding
  import Conversion
  import StarDateTime

  /** What construction raises: ValueError from date validation, or NameError. */
  datatype LegacyError = ValueError(DateError) | NameError

  /** A date with the star_year and star_day attributes that __init__ stores. */
  datatype LegacyStarDate = LegacyStarDate(date: Date, starYear: int, starDay: int)

  /** _calculate_star_year: the year counted from BASE_YEAR. */
  function CalculateStarYear(self: Date): (y: int)
    requires self.Valid()
    ensures y * Conversion.TenthsPerYear == Conversion.EarthDateToStarDate(self.year, 1, 1).value
  {
    Conversion.JanuaryFirstStartsStarYear(self.year);
    self.year - Conversion.BaseYear
  }

  /** __sub__ as written: super(Stardate, self) names an undefined class. */
  function SubAsWritten(self: Date, other: Date): Result<StarDateTime.StarTimeDelta, LegacyError>
  {
    Failure(NameError)
  }

  /** __sub__ as intended: the date difference as a StarTimeDelta. */
  function Sub(self: Date, other: Date): (r: StarDateTime.StarTimeDelta)
    requires self.Valid() && other.Valid()
    ensures r.days == Ordinal(self) - Ordinal(other) && r.seconds == 0 && r.microseconds == 0
  {
    StarDateTime.Wrap(Subtract(self, other))
  }

  /** _calculate_star_day as written: the subtraction raises before anything is rounded. */
  function CalculateStarDayAsWritten(self: Date): (r: Result<int, LegacyError>)
    requires self.Valid()
    ensures r == Failure(NameError)
  {
    match SubAsWritten(self, Date(self.year, 1, 1))
    case Failure(e) => Failure(e)
    case Success(dayCount) => Success(Conversion.StarDayTenths(dayCount.days))
  }

  /** _calculate_star_day as intended: round(day_count.days / 365.0 * 1000, 1), in tenths,
      the rounded fraction of a 365-day year elapsed since January 1. */
  function CalculateStarDay(self: Date): (t: int)
    requires self.Valid()
    ensures 0 <= t <= Conversion.TenthsPerYear
    ensures StrictlyNearest(DaysElapsedInYear(self) * Conversion.TenthsPerYear, 365, t)
  {
    var dayCount := Sub(self, Date(self.year, 1, 1));
    SubtractNewYear(self);
    Conversion.StarDayTenths(dayCount.days)
  }

  /** The number __repr__ renders, star_year * 1000 + star_day, in tenths. */
  function ReprValue(self: Date): (v: int)
    requires self.Valid()
    ensures StrictlyNearest(Conversion.ExactTimes365(self), 365, v)
  {
    CalculateStarYear(self) * Conversion.TenthsPerYear + CalculateStarDay(self)
  }

  /** StarDate(year, month, day) as written: date validation passes, star_year is computed,
      then computing star_day raises NameError. */
  function InitAsWritten(year: int, month: int, day: int): (r: Result<LegacyStarDate, LegacyError>)
    ensures r == Failure(if Date(year, month, day).Valid() then NameError
                         else ValueError(MakeDate(year, month, day).error))
  {
    match MakeDate(year, month, day)
    case Failure(e) => Failure(ValueError(e))
    case Success(d) =>
      match CalculateStarDayAsWritten(d)
      case Failure(e) => Failure(e)
      case Success(starDay) => Failure(NameError)
  }

  /** StarDate(year, month, day) as intended: validation, then both fields stored once. */
  function Init(year: int, month: int, day: int): (r: Result<LegacyStarDate, LegacyError>)
    ensures r.Success? <==> Date(year, month, day).Valid()
    ensures r.Failure? ==> r == Failure(ValueError(MakeDate(year, month, day).error))
    ensures r.Success? ==> r.value.date == Date(year, month, day)
    ensures r.Success? ==> r.value.starYear == year - Conversion.BaseYear
    ensures r.Success? ==> 0 <= r.value.starDay <= Conversion.TenthsPerYear
    ensures r.Success? ==> StrictlyNearest(DaysElapsedInYear(r.value.date) * Conversion.TenthsPerYear, 365, r.value.starDay)
  {
    match MakeDate(year, month, day)
    case Failure(e) => Failure(ValueError(e))
    case Success(d) => Success(LegacyStarDate(d, CalculateStarYear(d), CalculateStarDay(d)))
  }

  /** As written, no StarDate can be constructed: a valid date ends in NameError, an invalid
      one in ValueError. */
  lemma ConstructionAlwaysRaises(year: int, month: int, day: int)
    ensures InitAsWritten(year, month, day).Failure?
    ensures Date(year, month, day).Valid() <==> InitAsWritten(year, month, day) == Failure(NameError)
  {
  }

  /** As written, subtracting from a StarDate raises NameError, and so does the star-day
      helper, which subtracts January 1; the intended helper always yields a star day. */
  lemma SubtractionAlwaysRaises(self: Date, other: Date)
    requires self.Valid() && other.Valid()
    ensures SubAsWritten(self, other) == Failure(NameError)
    ensures CalculateStarDayAsWritten(self) == Failure(NameError)
    ensures Sub(self, other).days == Ordinal(self) - Ordinal(other)
  {
  }

  /** The constructor call that shows it: StarDate(2015, 1, 1). */
  lemma ConstructionOf2015Raises()
    ensures InitAsWritten(2015, 1, 1) == Failure(NameError)
    ensures Init(2015, 1, 1) == Success(LegacyStarDate(Date(2015, 1, 1), -308, 0))
  {
    SubtractNewYear(Date(2015, 1, 1));
  }

  /** Star year and star day give back earth_date_to_star_date for every valid date. */
  lemma ReprValueIsConversion(date: Date)
    requires date.Valid()
    ensures ReprValue(date) == Conversion.EarthDateToStarDate(date.year, date.month, date.day).value
  {
    SubtractNewYear(date);
  }

  /** What __repr__ recomputes is what __init__ stored, field by field, and their sum is
      earth_date_to_star_date. */
  lemma ReprRecomputesStoredFields(year: int, month: int, day: int)
    requires Date(year, month, day).Valid()
    ensures var s := Init(year, month, day).value;
      CalculateStarYear(s.date) == s.starYear
      && CalculateStarDay(s.date) == s.starDay
      && ReprValue(s.date) == s.starYear * Conversion.TenthsPerYear + s.starDay
      && ReprValue(s.date) == Conversion.EarthDateToStarDate(year, month, day).value
  {
    var s := Init(year, month, day).value;
    NearestIsUnique(DaysElapsedInYear(s.date) * Conversion.TenthsPerYear, 365, s.starDay, CalculateStarDay(s.date));
    ReprValueIsConversion(Date(year, month, day));
  }
}
