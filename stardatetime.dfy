/** stardatetime/stardatetime.py: StarDate, a date that carries its unrounded star date, and
    StarTimeDelta, the difference of two dates rendered as star days. */
module StarDateTime {
  import opened Wrappers
  import opened Calendar
  import opened Rounding
  import Conversion

  /** A timedelta subclass whose repr is the delta in star days, to four decimals. */
  datatype StarTimeDelta = StarTimeDelta(days: int, seconds: int, microseconds: int) {

    /** The number StarTimeDelta.__repr__ renders, round(days / 365.0 * 1000, 4), in units of
        1/10000 star day: the integer nearest days * 10^7 / 365. Seconds and microseconds are
        not read. */
    function ReprValue(): (v: int)
      ensures StrictlyNearest(days * 10000000, 365, v)
    {
      var v := RoundHalfAway(days * 10000000, 365);
      OddDivisorHasNoTie(days * 10000000, 365, v);
      v
    }
  }

  /** StarTimeDelta(days=..., seconds=..., microseconds=...) built from a timedelta. */
  function Wrap(delta: TimeDelta): StarTimeDelta
  {
    StarTimeDelta(delta.days, delta.seconds, delta.microseconds)
  }

  /** A date together with the `stardate` attribute that __init__ stores once. */
  datatype StarDate = StarDate(date: Date, stardate: real) {

    /** The object invariant: a valid date whose stored star date is its conversion. */
    predicate Valid() {
      date.Valid() && stardate == ConvertToStardate(date)
    }
  }

  /** StarDate._convert_to_stardate: (year - BASE_YEAR) * 1000 plus (self - January 1).days
      / 365 * 1000 in true division, so nothing is rounded. */
  function ConvertToStardate(self: Date): (s: real)
    requires self.Valid()
    ensures s == ((self.year - Conversion.BaseYear) * 1000) as real + (DaysElapsedInYear(self) * 1000) as real / 365.0
    ensures ((self.year - Conversion.BaseYear) * 1000) as real <= s <= ((self.year - Conversion.BaseYear) * 1000 + 1000) as real
  {
    var starYear := (self.year - Conversion.BaseYear) * 1000;
    var firstDateOfYear := Date(self.year, 1, 1);
    var daysElapsedInYear := Wrap(Subtract(self, firstDateOfYear));
    SubtractNewYear(self);
    starYear as real + daysElapsedInYear.days as real / 365.0 * 1000.0
  }

  /** StarDate(year, month, day): date validation, then the star date computed once. An
      out-of-range field raises ValueError and no object exists. */
  function New(year: int, month: int, day: int): (r: Result<StarDate, DateError>)
    ensures r.Success? <==> Date(year, month, day).Valid()
    ensures r.Success? ==> r.value.date == Date(year, month, day) && r.value.Valid()
    ensures r.Failure? ==> r == Failure(MakeDate(year, month, day).error)
  {
    match MakeDate(year, month, day)
    case Failure(e) => Failure(e)
    case Success(d) => Success(StarDate(d, ConvertToStardate(d)))
  }

  /** StarDate.__sub__ with a date on the right: the date difference as a StarTimeDelta. */
  function Sub(self: StarDate, other: Date): (r: StarTimeDelta)
    requires self.date.Valid() && other.Valid()
    ensures r.days == Ordinal(self.date) - Ordinal(other)
    ensures r.seconds == 0 && r.microseconds == 0
  {
    Wrap(Subtract(self.date, other))
  }

  /** stardate is the star year plus the StarDate-minus-January-1 delta in star days, which
      ties the stored value to subtraction. */
  lemma StardateFromSubtraction(s: StarDate)
    requires s.Valid()
    ensures s.stardate == ((s.date.year - Conversion.BaseYear) * 1000) as real
      + (Sub(s, Date(s.date.year, 1, 1)).days * 1000) as real / 365.0
  {
    SubtractNewYear(s.date);
  }

  /** The unit test: StarDate(2015, 1, 1).stardate == -308000; and month 13 raises. */
  lemma UnitTests()
    ensures New(2015, 1, 1) == Success(StarDate(Date(2015, 1, 1), -308000.0))
    ensures New(2015, 13, 1) == Failure(MonthOutOfRange)
  {
  }

  /** The stored star date is within 0.05 of earth_date_to_star_date for the same date:
      they differ only by the rounding to one decimal. */
  lemma StardateIsWithinRoundingOfConversion(year: int, month: int, day: int)
    requires Date(year, month, day).Valid()
    ensures var s := New(year, month, day).value.stardate;
      var c := Conversion.EarthDateToStarDate(year, month, day).value as real / 10.0;
      -0.05 < s - c < 0.05
  {
    var d := Date(year, month, day);
    Conversion.EarthDateToStarDateIsNearest(d);
    var t := Conversion.EarthDateToStarDate(year, month, day).value;
    var e := Conversion.ExactTimes365(d);
    assert -365 < 2 * (t * 365 - e) < 365;
    var s := New(year, month, day).value.stardate;
    assert s == e as real / 3650.0;
    assert s - t as real / 10.0 == (e - t * 365) as real / 3650.0;
  }

  /** The stored value is not rounded: on 2014-12-31 it is 364000 / 365 - 309000, not the
      -308002.7 that earth_date_to_star_date gives. */
  lemma StardateIsNotRounded()
    ensures New(2014, 12, 31).value.stardate == -309000.0 + 364000.0 / 365.0
    ensures New(2014, 12, 31).value.stardate != -308002.7
  {
    assert DaysElapsedInYear(Date(2014, 12, 31)) == 364;
  }

  /** a - a is the zero delta, whose repr value is 0. */
  lemma SubSelfIsZero(s: StarDate)
    requires s.date.Valid()
    ensures Sub(s, s.date) == StarTimeDelta(0, 0, 0)
    ensures Sub(s, s.date).ReprValue() == 0
  {
  }

  /** (a - b).days == -((b - a).days), and the repr values are negatives of each other. */
  lemma SubIsAntisymmetric(a: StarDate, b: StarDate)
    requires a.date.Valid() && b.date.Valid()
    ensures Sub(a, b.date).days == -Sub(b, a.date).days
    ensures Sub(a, b.date).ReprValue() == -Sub(b, a.date).ReprValue()
  {
    ReprValueIsOdd(Sub(b, a.date));
  }

  /** The sign of a - other says which date is later, and the delta is zero only for the same
      date. */
  lemma SubSign(a: StarDate, other: Date)
    requires a.date.Valid() && other.Valid()
    ensures Sub(a, other).days > 0 <==> Before(other, a.date)
    ensures Sub(a, other).days < 0 <==> Before(a.date, other)
    ensures Sub(a, other).days == 0 <==> a.date == other
  {
    SubtractSign(a.date, other);
  }

  /** Delta days add up along a chain of dates: (a - b) + (b - c) == a - c. */
  lemma SubIsAdditive(a: StarDate, b: StarDate, c: Date)
    requires a.date.Valid() && b.date.Valid() && c.Valid()
    ensures Sub(a, b.date).days + Sub(b, c).days == Sub(a, c).days
  {
  }

  /** The repr value depends on days alone. */
  lemma ReprValueIgnoresTime(x: StarTimeDelta, y: StarTimeDelta)
    requires x.days == y.days
    ensures x.ReprValue() == y.ReprValue()
  {
  }

  /** Negating the days negates the repr value. */
  lemma ReprValueIsOdd(x: StarTimeDelta)
    ensures StarTimeDelta(-x.days, x.seconds, x.microseconds).ReprValue() == -x.ReprValue()
  {
    RoundHalfAwayIsOdd(x.days * 10000000, 365);
    assert -x.days * 10000000 == -(x.days * 10000000);
  }

  /** The repr value, read as star days, is within 0.00005 of days / 365 * 1000. */
  lemma ReprValueIsWithinRounding(x: StarTimeDelta)
    ensures -0.00005 < x.ReprValue() as real / 10000.0 - (x.days * 1000) as real / 365.0 < 0.00005
  {
    var v := x.ReprValue();
    assert -365 < 2 * (v * 365 - x.days * 10000000) < 365;
    assert v as real / 10000.0 - (x.days * 1000) as real / 365.0
      == (v * 365 - x.days * 10000000) as real / 3650000.0;
  }

  /** One day is 2.7397 star days and a 365-day year exactly 1000. */
  lemma ReprValueExamples()
    ensures StarTimeDelta(1, 0, 0).ReprValue() == 27397
    ensures StarTimeDelta(365, 0, 0).ReprValue() == 10000000
    ensures StarTimeDelta(-1, 0, 0).ReprValue() == -27397
  {
  }
}
