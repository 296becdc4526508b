/** The `UnitOfTime` enumeration of main.py and its `is_valid` test. */
module UnitOfTime {

  /** The six members of the enumeration. */
  datatype Unit = Second | Minute | Hour | Day | Month | Year

  /** `str.lower(val.name)`: the lower-cased member name (it is also the member's value). */
  function Name(u: Unit): string
  {
    match u
    case Second => "second"
    case Minute => "minute"
    case Hour => "hour"
    case Day => "day"
    case Month => "month"
    case Year => "year"
  }

  /** The literal list `is_valid` filters, as written: `MINUTE` appears twice and `MONTH` not at all. */
  const Candidates: seq<Unit> := [Second, Minute, Hour, Day, Minute, Year]

  /** The names `is_valid` accepts. */
  const AcceptedNames: set<string> := {"second", "minute", "hour", "day", "year"}

  /** `filter(lambda val: str.lower(val.name) == value, units)`: the members, in order, whose name is exactly `value`. */
  function Matching(units: seq<Unit>, value: string): (r: seq<Unit>)
    ensures |r| <= |units|
    ensures forall u :: u in r <==> u in units && Name(u) == value
  {
    if units == [] then []
    else if Name(units[0]) == value then [units[0]] + Matching(units[1..], value)
    else Matching(units[1..], value)
  }

  /** `UnitOfTime.is_valid(value)`: true when some listed member's lower-cased name equals `value` exactly. */
  function IsValid(value: string): (b: bool)
    ensures b <==> exists u :: u in Candidates && Name(u) == value
  {
    var matched := Matching(Candidates, value);
    assert |matched| > 0 ==> matched[0] in matched;
    |matched| > 0
  }

  /** `is_valid` accepts exactly five strings; "month" and every other string, whatever its case, are refused. */
  lemma IsValidExactly(value: string)
    ensures IsValid(value) <==> value in AcceptedNames
    ensures !IsValid("month")
  {
  }

  /** The comparison is case-sensitive: a string holding any upper-case letter is refused ("Day", "YEAR"). */
  lemma UpperCaseRefused(value: string, i: nat)
    requires i < |value| && 'A' <= value[i] <= 'Z'
    ensures !IsValid(value)
  {
  }
}
