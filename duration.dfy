/** The duration parser (`parseHumanReadableTime`): `<digits><unit>` with a
    case-sensitive single-letter unit, converted to seconds. */
module Duration {
  import opened Wrappers
  import opened Decimal

  /** The two errors the parser can throw. `UnknownTimeUnit` belongs to the
      `default` branch of the unit switch, which the regular expression makes
      unreachable (see ParseTime's postcondition). */
  datatype TimeError = InvalidTimeFormat(input: string) | UnknownTimeUnit(unit: char)

  /** The `message` of the thrown error. */
  function TimeErrorMessage(e: TimeError): (m: string)
    ensures e.InvalidTimeFormat? <==> "Invalid time format: " <= m
    ensures e.UnknownTimeUnit? <==> "Unknown time unit: " <= m
  {
    match e
    case InvalidTimeFormat(input) =>
      var m := "Invalid time format: " + input + ". Expected format like \"7d\", \"1w\", \"2M\", \"1y\".";
      assert m[0] == 'I';
      m
    case UnknownTimeUnit(unit) =>
      var m := "Unknown time unit: " + [unit];
      assert m[0] == 'U';
      m
  }

  /** The character class `[dhwMy]`. */
  predicate IsTimeUnit(c: char) {
    c == 'd' || c == 'h' || c == 'w' || c == 'M' || c == 'y'
  }

  /** `input.match(/^(\d+)([dhwMy])$/)`: the digit group and the unit. The unit
      is a single non-digit character, so the digit group is everything
      before the last character. */
  function MatchTime(input: string): (r: Option<(string, char)>)
    ensures r.Some? ==>
      input == r.value.0 + [r.value.1] && r.value.0 != [] && AllDigits(r.value.0) && IsTimeUnit(r.value.1)
  {
    if |input| >= 2 && AllDigits(input[..|input| - 1]) && IsTimeUnit(input[|input| - 1])
    then Some((input[..|input| - 1], input[|input| - 1]))
    else None
  }

  /** The `switch (unit)` of the parser: the digit group's value times the
      unit's length in seconds, written as the source computes it. The
      `default` branch throws "Unknown time unit". */
  function ConvertTime(numValue: nat, unit: char): (r: Result<nat, TimeError>)
    ensures IsTimeUnit(unit) ==> r == Success(numValue * UnitSeconds(unit))
    ensures !IsTimeUnit(unit) ==> r == Failure(UnknownTimeUnit(unit))
  {
    match unit
    case 'd' => Success(numValue * 24 * 60 * 60)
    case 'h' => Success(numValue * 60 * 60)
    case 'w' => Success(numValue * 7 * 24 * 60 * 60)
    case 'M' => Success(numValue * 30 * 24 * 60 * 60)
    case 'y' => Success(numValue * 365 * 24 * 60 * 60)
    case _ => Failure(UnknownTimeUnit(unit))
  }

  /** `parseHumanReadableTime`: seconds for a valid duration, an error otherwise.
      A failure is always the "Invalid time format" one: the `default` branch
      of the switch is never taken. */
  function ParseTime(input: string): (r: Result<nat, TimeError>)
    ensures r.Failure? ==> r.error == InvalidTimeFormat(input)
  {
    match MatchTime(input)
    case None => Failure(InvalidTimeFormat(input))
    case Some((value, unit)) => ConvertTime(DigitsValue(value), unit)
  }

  /** The conversion table: a day, an hour, a week, a 30-day month and a
      365-day year, in seconds. */
  function UnitSeconds(unit: char): nat
    requires IsTimeUnit(unit)
  {
    match unit
    case 'd' => 86400
    case 'h' => 3600
    case 'w' => 604800
    case 'M' => 2592000
    case 'y' => 31536000
  }

  /** The grammar `<one or more digits><unit letter>`, stated declaratively. */
  ghost predicate TimeGrammar(s: string) {
    exists digits: string, unit: char ::
      s == digits + [unit] && digits != [] && AllDigits(digits) && IsTimeUnit(unit)
  }

  /** The parser accepts exactly the strings of the grammar. */
  lemma TimeGrammarExact(s: string)
    ensures ParseTime(s).Success? <==> TimeGrammar(s)
  {
    if ParseTime(s).Success? {
      var digits, unit := s[..|s| - 1], s[|s| - 1];
      assert s == digits + [unit];
    }
    if TimeGrammar(s) {
      var digits: string, unit: char :|
        s == digits + [unit] && digits != [] && AllDigits(digits) && IsTimeUnit(unit);
      assert s[..|s| - 1] == digits;
    }
  }

  /** For a valid input the result is the number times the unit's constant. */
  lemma TimeValue(digits: string, unit: char)
    requires digits != [] && AllDigits(digits) && IsTimeUnit(unit)
    ensures ParseTime(digits + [unit]) == Success(DigitsValue(digits) * UnitSeconds(unit))
  {
    var s := digits + [unit];
    assert s[..|s| - 1] == digits;
  }

  /** `<n><unit>` parses to `n` times the unit's constant, for every `n`. */
  lemma TimeOfNumber(n: nat, unit: char)
    requires IsTimeUnit(unit)
    ensures ParseTime(ToDecimal(n) + [unit]) == Success(n * UnitSeconds(unit))
  {
    TimeValue(ToDecimal(n), unit);
    DigitsValueOfDecimal(n);
  }

  /** `parseInt` ignores leading zeros: "07d" is the same duration as "7d". */
  lemma TimeLeadingZero(digits: string, unit: char)
    requires digits != [] && AllDigits(digits) && IsTimeUnit(unit)
    ensures ParseTime(['0'] + digits + [unit]) == ParseTime(digits + [unit])
  {
    LeadingZeroValue(digits);
    TimeValue(['0'] + digits, unit);
    TimeValue(digits, unit);
  }

  /** Units are case-sensitive and single letters: anything else after the
      digits is rejected with "Invalid time format". */
  lemma TimeRejectsOtherUnits(digits: string, unit: char)
    requires !IsTimeUnit(unit)
    ensures ParseTime(digits + [unit]) == Failure(InvalidTimeFormat(digits + [unit]))
  {
    var s := digits + [unit];
    assert s[|s| - 1] == unit;
  }

  /** The day, hour and week cases of the repository's tests. */
  lemma TimeExamples()
    ensures ParseTime("7d") == Success(7 * 24 * 60 * 60)
    ensures ParseTime("24h") == Success(24 * 60 * 60)
    ensures ParseTime("2w") == Success(2 * 7 * 24 * 60 * 60)
  {
    TimeValue("7", 'd');
    TimeValue("24", 'h');
    TimeValue("2", 'w');
  }

  /** The month and year cases of the repository's tests. */
  lemma LongTimeExamples()
    ensures ParseTime("3M") == Success(3 * 30 * 24 * 60 * 60)
    ensures ParseTime("1y") == Success(365 * 24 * 60 * 60)
  {
    TimeValue("3", 'M');
    TimeValue("1", 'y');
  }

  /** Malformed durations, compound and fractional ones and wrong-case units
      all fail with "Invalid time format". */
  lemma TimeRejections()
    ensures ParseTime("invalid") == Failure(InvalidTimeFormat("invalid"))
    ensures ParseTime("1d2h") == Failure(InvalidTimeFormat("1d2h"))
    ensures ParseTime("1.5d") == Failure(InvalidTimeFormat("1.5d"))
    ensures ParseTime("") == Failure(InvalidTimeFormat(""))
    ensures ParseTime("5m") == Failure(InvalidTimeFormat("5m"))
    ensures ParseTime("5D") == Failure(InvalidTimeFormat("5D"))
  {
    assert !IsDigit("invalid"[0]);
    assert !IsDigit("1d2h"[1]);
    assert !IsDigit("1.5d"[1]);
    TimeRejectsOtherUnits("5", 'm');
    TimeRejectsOtherUnits("5", 'D');
  }
}
