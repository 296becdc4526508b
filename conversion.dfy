/** The `units` table of `Cleaner.remove_files`: an age in seconds expressed in each unit of time. */
module Conversion {
  import opened UnitOfTime

  /** Python's `int(a / d)` for a positive divisor: the quotient truncated toward zero. */
  function TruncDiv(a: int, d: int): (q: int)
    requires d > 0
    ensures a >= 0 ==> 0 <= q && q * d <= a < q * d + d
    ensures a < 0 ==> q <= 0 && q * d - d < a <= q * d
  {
    if a >= 0 then
      DivBounds(a, d);
      a / d
    else
      DivBounds(-a, d);
      -((-a) / d)
  }

  /** Euclidean division of a nonnegative dividend, stated as the bounds truncation needs. */
  lemma DivBounds(a: int, d: int)
    requires a >= 0 && d > 0
    ensures 0 <= a / d && (a / d) * d <= a < (a / d) * d + d
  {
    assert a == (a / d) * d + a % d;
  }

  /** Truncating division never decreases when its dividend grows. */
  lemma TruncDivMonotone(a: int, b: int, d: int)
    requires d > 0 && a <= b
    ensures TruncDiv(a, d) <= TruncDiv(b, d)
  {
    var qa, qb := TruncDiv(a, d), TruncDiv(b, d);
    if qa > qb {
      // then qa * d >= qb * d + d, which puts a above b
      MulMonotone(qb + 1, qa, d);
      assert false;
    }
  }

  lemma MulMonotone(x: int, y: int, d: int)
    requires x <= y && d > 0
    ensures x * d <= y * d
  {
  }

  /** The number of seconds one unit stands for: one, a minute, an hour, a day, a 30-day month, a 360-day year. */
  function Factor(u: Unit): (f: nat)
    ensures f >= 1
  {
    match u
    case Second => 1
    case Minute => 60
    case Hour => 3600
    case Day => 3600 * 24
    case Month => 3600 * 24 * 30
    case Year => 3600 * 24 * 30 * 12
  }

  /** Each unit is a whole number of the next smaller one: 60 seconds, 60 minutes, 24 hours, 30 days, 12 months. */
  lemma FactorsNest()
    ensures Factor(Minute) == 60 * Factor(Second)
    ensures Factor(Hour) == 60 * Factor(Minute)
    ensures Factor(Day) == 24 * Factor(Hour)
    ensures Factor(Month) == 30 * Factor(Day)
    ensures Factor(Year) == 12 * Factor(Month)
  {
  }

  /** The six keys of the table. */
  const UnitNames: set<string> := {"second", "minute", "hour", "day", "month", "year"}

  /** The `units` dictionary computed for an age of `seconds`. Each entry is the age truncated to whole units. */
  function UnitsTable(seconds: int): (t: map<string, int>)
    ensures t.Keys == UnitNames
    ensures forall u :: Name(u) in t && t[Name(u)] == TruncDiv(seconds, Factor(u))
  {
    map[
      "second" := seconds,
      "minute" := TruncDiv(seconds, 60),
      "hour" := TruncDiv(seconds, 3600),
      "day" := TruncDiv(seconds, 3600 * 24),
      "month" := TruncDiv(seconds, 3600 * 24 * 30),
      "year" := TruncDiv(seconds, 3600 * 24 * 30 * 12)
    ]
  }

  /** Every unit name `is_valid` accepts is a key of the table, so the lookup in the sweep cannot fail after a passing check. */
  lemma AcceptedUnitHasEntry(value: string)
    requires IsValid(value)
    ensures value in UnitNames
  {
  }

  /** A truncated quotient lies between zero and its dividend. */
  lemma TruncDivBetween(a: int, d: int)
    requires d > 0
    ensures a >= 0 ==> TruncDiv(a, d) <= a
    ensures a < 0 ==> a <= TruncDiv(a, d)
  {
    var q := TruncDiv(a, d);
    if q > 0 {
      MulMonotone(1, d, q);
      assert d * q == q * d;
    } else if q < 0 {
      MulMonotone(1, d, -q);
      assert d * -q == -(q * d);
    }
  }

  /** `units[unit]` for an age of `seconds`: the age in the unit named `unit`. */
  function ConvertedAge(unit: string, seconds: int): (age: int)
    requires unit in UnitNames
    ensures seconds >= 0 ==> 0 <= age <= seconds
    ensures seconds < 0 ==> seconds <= age <= 0
    ensures forall u :: Name(u) == unit ==> age == TruncDiv(seconds, Factor(u))
  {
    var u := if unit == "second" then Second else if unit == "minute" then Minute
             else if unit == "hour" then Hour else if unit == "day" then Day
             else if unit == "month" then Month else Year;
    assert Name(u) == unit;
    TruncDivBetween(seconds, Factor(u));
    UnitsTable(seconds)[unit]
  }

  /** Conversion is monotone: an older file never shows a smaller age, in any unit. */
  lemma ConvertedAgeMonotone(unit: string, a: int, b: int)
    requires unit in UnitNames && a <= b
    ensures ConvertedAge(unit, a) <= ConvertedAge(unit, b)
  {
    var u :| u in {Second, Minute, Hour, Day, Month, Year} && Name(u) == unit;
    TruncDivMonotone(a, b, Factor(u));
  }

  /** For a delay of zero or more, a converted age exceeds the delay exactly when the age in seconds
      reaches one more than the delay in whole units. */
  lemma ExceedsIffSeconds(u: Unit, delay: int, seconds: int)
    requires delay >= 0
    ensures ConvertedAge(Name(u), seconds) > delay <==> seconds >= (delay + 1) * Factor(u)
  {
    var d, q := Factor(u), TruncDiv(seconds, Factor(u));
    if q > delay {
      MulMonotone(delay + 1, q, d);
    } else {
      MulMonotone(q + 1, delay + 1, d);
      assert (q + 1) * d == q * d + d;
    }
  }

  /** For a negative delay, a converted age exceeds the delay exactly when the age in seconds exceeds the
      delay in whole units, so a file dated less than that far in the future still counts as old. */
  lemma ExceedsIffSecondsNegative(u: Unit, delay: int, seconds: int)
    requires delay < 0
    ensures ConvertedAge(Name(u), seconds) > delay <==> seconds > delay * Factor(u)
  {
    TruncExceedsNegative(seconds, Factor(u), delay);
  }

  lemma TruncExceedsNegative(a: int, d: int, delay: int)
    requires d > 0 && delay < 0
    ensures TruncDiv(a, d) > delay <==> a > delay * d
  {
    var q := TruncDiv(a, d);
    if a >= 0 {
      MulMonotone(delay, 0, d);
    } else if q > delay {
      // q - 1 >= delay, and a lies above (q - 1) * d
      MulMonotone(delay, q - 1, d);
      assert (q - 1) * d == q * d - d;
    } else {
      // q <= delay, and a lies at or below q * d
      MulMonotone(q, delay, d);
    }
  }

  /** Under a delay of -1 day, a file dated 12 hours ahead converts to 0 days and is old enough, while one
      dated a full day ahead converts to -1 and is not. */
  lemma FutureFilesUnderNegativeDelay()
    ensures ConvertedAge("day", -43200) > -1
    ensures !(ConvertedAge("day", -86400) > -1)
  {
    ExceedsIffSecondsNegative(Day, -1, -43200);
    ExceedsIffSecondsNegative(Day, -1, -86400);
  }
}
