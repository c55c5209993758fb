/** The size parser (`parseHumanReadableSize`): `<number><spaces><unit>` with
    a decimal number, a case-insensitive unit among KB, MB, GB and TB, and
    1024-based multiples. The number is modelled exactly (no floating point). */
module SizeParser {
  import opened Wrappers
  import opened Decimal

  /** The errors the parser can throw. `UnhandledSizeUnit` belongs to the
      `default` branch of the unit switch (a shorter message, without the
      expected-format hint), which the first regular expression makes
      unreachable. */
  datatype SizeError =
    | InvalidSizeFormat(input: string)
    | UnknownSizeUnit(unit: string)
    | UnhandledSizeUnit(unit: string)

  /** The `message` of the thrown error. */
  function SizeErrorMessage(e: SizeError): (m: string)
    ensures e.InvalidSizeFormat? <==> "Invalid size format: " <= m
    ensures !e.InvalidSizeFormat? <==> "Unknown size unit: " <= m
  {
    match e
    case InvalidSizeFormat(input) =>
      var m := "Invalid size format: " + input + ". Expected format like \"500MB\", \"1.5GB\", \"10TB\".";
      assert m[0] == 'I';
      m
    case UnknownSizeUnit(unit) =>
      var m := "Unknown size unit: " + unit + ". Expected format like \"500MB\", \"1.5GB\", \"10TB\".";
      assert m[0] == 'U' && m[..19] == "Unknown size unit: ";
      m
    case UnhandledSizeUnit(unit) =>
      var m := "Unknown size unit: " + unit;
      assert m[0] == 'U' && m[..19] == "Unknown size unit: ";
      m
  }

  /** `\s` of a JavaScript regular expression: the ASCII blanks, no-break
      space, the Unicode space separators, the line and paragraph separators
      and the byte order mark. */
  predicate IsSpace(c: char) {
    var n := c as int;
    n == 0x09 || n == 0x0A || n == 0x0B || n == 0x0C || n == 0x0D || n == 0x20
    || n == 0xA0 || n == 0x1680 || (0x2000 <= n <= 0x200A) || n == 0x2028 || n == 0x2029
    || n == 0x202F || n == 0x205F || n == 0x3000 || n == 0xFEFF
  }

  predicate AllSpaces(s: seq<char>) {
    forall i :: 0 <= i < |s| ==> IsSpace(s[i])
  }

  /** `[A-Za-z]` */
  predicate IsAsciiLetter(c: char) {
    'A' <= c <= 'Z' || 'a' <= c <= 'z'
  }

  /** `toUpperCase` on the characters a matched unit can hold. Without the `u`
      flag, a case-insensitive JavaScript match only folds a character onto an
      ASCII one when the character is itself ASCII, so only ASCII letters
      ever need upper-casing here. */
  function AsciiUpper(c: char): char {
    if 'a' <= c <= 'z' then (c as int - 32) as char else c
  }

  function UpperCase(s: string): (u: string)
    ensures |u| == |s| && forall i :: 0 <= i < |s| ==> u[i] == AsciiUpper(s[i])
  {
    seq(|s|, i requires 0 <= i < |s| => AsciiUpper(s[i]))
  }

  predicate IsSizeUnit(u: string) {
    u == "KB" || u == "MB" || u == "GB" || u == "TB"
  }

  /** What the unit group of each of the two regular expressions accepts:
      `(KB|MB|GB|TB)` under the `i` flag, or `([A-Za-z]+)`. */
  datatype UnitPattern = KnownUnit | Letters

  predicate UnitMatches(p: UnitPattern, u: string) {
    match p
    case KnownUnit => |u| == 2 && IsSizeUnit([AsciiUpper(u[0]), AsciiUpper(u[1])])
    case Letters => u != [] && forall i :: 0 <= i < |u| ==> IsAsciiLetter(u[i])
  }

  /** The end of the longest run of `\d` characters of `s` from index `k` on. */
  function DigitsEnd(s: string, k: nat): (e: nat)
    requires k <= |s|
    ensures k <= e <= |s|
    ensures forall i :: k <= i < e ==> IsDigit(s[i])
    ensures e < |s| ==> !IsDigit(s[e])
    decreases |s| - k
  {
    if k < |s| && IsDigit(s[k]) then DigitsEnd(s, k + 1) else k
  }

  /** The end of the longest run of `\s` characters of `s` from index `k` on. */
  function SpacesEnd(s: string, k: nat): (e: nat)
    requires k <= |s|
    ensures k <= e <= |s|
    ensures forall i :: k <= i < e ==> IsSpace(s[i])
    ensures e < |s| ==> !IsSpace(s[e])
    decreases |s| - k
  {
    if k < |s| && IsSpace(s[k]) then SpacesEnd(s, k + 1) else k
  }

  /** A run of digits from `k` that stops at `e` is the one DigitsEnd finds. */
  lemma {:induction false} DigitsEndAt(s: string, k: nat, e: nat)
    requires k <= e <= |s|
    requires forall i :: k <= i < e ==> IsDigit(s[i])
    requires e < |s| ==> !IsDigit(s[e])
    ensures DigitsEnd(s, k) == e
    decreases e - k
  {
    if k < e {
      DigitsEndAt(s, k + 1, e);
    }
  }

  /** A run of blanks from `k` that stops at `e` is the one SpacesEnd finds. */
  lemma {:induction false} SpacesEndAt(s: string, k: nat, e: nat)
    requires k <= e <= |s|
    requires forall i :: k <= i < e ==> IsSpace(s[i])
    requires e < |s| ==> !IsSpace(s[e])
    ensures SpacesEnd(s, k) == e
    decreases e - k
  {
    if k < e {
      SpacesEndAt(s, k + 1, e);
    }
  }

  /** The captured groups: the integer digits and the fraction digits of
      the number (empty when there is no decimal point), and the unit. */
  datatype SizeMatch = SizeMatch(whole: string, fraction: string, unit: string)

  /** The decimal point and fraction digits, as they appear in the input. */
  function FractionText(fraction: string): string {
    if fraction == [] then [] else ['.'] + fraction
  }

  /** Where the number group `(\d+(?:\.\d+)?)` of a match ends: after the
      integer digits, and after a point and more digits when they follow. */
  function NumberEnd(input: string): (j: nat)
    ensures DigitsEnd(input, 0) <= j <= |input|
  {
    var i := DigitsEnd(input, 0);
    if i + 1 < |input| && input[i] == '.' && IsDigit(input[i + 1]) then DigitsEnd(input, i + 1) else i
  }

  /** The fraction digits of the number group, empty when it has none. */
  function FractionDigits(input: string): (d: string)
    ensures AllDigits(d)
  {
    var i := DigitsEnd(input, 0);
    var j := NumberEnd(input);
    if j > i then input[i + 1..j] else []
  }

  /** `input.match(/^(\d+(?:\.\d+)?)\s*(<unit>)$/)`. No character can both end
      one part of the pattern and start the next (a digit, then a point, then
      a blank, then a letter), so the match, when there is one, takes the
      longest run of each part; MatchSizeSound and MatchSizeComplete prove
      that this agrees with the pattern read as a grammar. */
  function MatchSize(input: string, p: UnitPattern): (r: Option<SizeMatch>)
    ensures r.Some? ==> r.value.whole != [] && AllDigits(r.value.whole) && AllDigits(r.value.fraction)
    ensures r.Some? ==> UnitMatches(p, r.value.unit)
  {
    var i := DigitsEnd(input, 0);
    var unit := input[SpacesEnd(input, NumberEnd(input))..];
    if i > 0 && UnitMatches(p, unit)
    then Some(SizeMatch(input[..i], FractionDigits(input), unit))
    else None
  }

  /** The pattern as a grammar: `m` and some run of blanks make up `input`. */
  ghost predicate SizeShape(input: string, p: UnitPattern, m: SizeMatch) {
    && m.whole != [] && AllDigits(m.whole) && AllDigits(m.fraction)
    && UnitMatches(p, m.unit)
    && exists blanks :: SplitsAs(input, m, blanks)
  }

  /** `input` is the number of `m`, then `blanks`, then the unit of `m`. */
  ghost predicate SplitsAs(input: string, m: SizeMatch, blanks: string) {
    AllSpaces(blanks) && input == m.whole + FractionText(m.fraction) + blanks + m.unit
  }

  /** Cutting a string at three points and joining the pieces again. */
  lemma Rejoin(s: string, i: nat, j: nat, u: nat)
    requires i <= j <= u <= |s|
    ensures s == s[..i] + s[i..j] + s[j..u] + s[u..]
  {
  }

  /** The number text between the integer digits and the blanks. */
  lemma FractionTextOf(input: string)
    ensures input[DigitsEnd(input, 0)..NumberEnd(input)] == FractionText(FractionDigits(input))
  {
    var i, j := DigitsEnd(input, 0), NumberEnd(input);
    if j > i {
      assert input[i..j] == [input[i]] + input[i + 1..j];
    }
  }

  /** Every match the scanner returns fits the grammar. */
  lemma MatchSizeSound(input: string, p: UnitPattern)
    requires MatchSize(input, p).Some?
    ensures SizeShape(input, p, MatchSize(input, p).value)
  {
    var m := MatchSize(input, p).value;
    var i, j := DigitsEnd(input, 0), NumberEnd(input);
    var u := SpacesEnd(input, j);
    FractionTextOf(input);
    Rejoin(input, i, j, u);
    assert SplitsAs(input, m, input[j..u]);
  }

  /** A unit of either pattern starts with a letter. */
  lemma UnitStartsWithLetter(p: UnitPattern, u: string)
    requires UnitMatches(p, u)
    ensures u != [] && IsAsciiLetter(u[0])
  {
  }

  /** Whatever fits the grammar is what the scanner returns. */
  lemma MatchSizeComplete(input: string, p: UnitPattern, m: SizeMatch, blanks: string)
    requires m.whole != [] && AllDigits(m.whole) && AllDigits(m.fraction)
    requires UnitMatches(p, m.unit)
    requires SplitsAs(input, m, blanks)
    ensures MatchSize(input, p) == Some(m)
  {
    UnitStartsWithLetter(p, m.unit);
    var i := |m.whole|;
    var j := i + |FractionText(m.fraction)|;
    var u := j + |blanks|;
    ScanParts(input, m, blanks, i, j, u);
    assert input[..i] == m.whole;
    assert input[u..] == m.unit;
    if m.fraction != [] {
      assert input[i + 1..j] == m.fraction;
    }
  }

  /** The scanner stops at the borders between the parts of `input`. */
  lemma ScanParts(input: string, m: SizeMatch, blanks: string, i: nat, j: nat, u: nat)
    requires m.whole != [] && AllDigits(m.whole) && AllDigits(m.fraction) && AllSpaces(blanks)
    requires m.unit != [] && IsAsciiLetter(m.unit[0])
    requires input == m.whole + FractionText(m.fraction) + blanks + m.unit
    requires i == |m.whole| && j == i + |FractionText(m.fraction)| && u == j + |blanks|
    ensures DigitsEnd(input, 0) == i && NumberEnd(input) == j && SpacesEnd(input, j) == u
  {
    var text := FractionText(m.fraction);
    var rest := blanks + m.unit;
    LetterIsNotBlank(m.unit[0]);
    if blanks != [] {
      assert rest[0] == blanks[0] && IsSpace(blanks[0]);
    } else {
      assert rest[0] == m.unit[0];
    }
    assert !IsDigit(rest[0]) && rest[0] != '.';
    Regroup(m.whole, text, blanks, m.unit);
    assert input[i..] == text + rest;
    assert input[j..] == rest;
    DigitsEndFrom(input, 0, m.whole, text + rest);
    NumberEndOf(input, m.fraction, rest);
    SpacesEndFrom(input, j, blanks, m.unit);
  }

  lemma Regroup(a: string, b: string, c: string, d: string)
    ensures a + b + c + d == a + (b + (c + d)) == (a + b) + (c + d)
  {
  }

  /** A letter is neither a blank, nor a digit, nor a decimal point. */
  lemma LetterIsNotBlank(c: char)
    requires IsAsciiLetter(c)
    ensures !IsSpace(c) && !IsDigit(c) && c != '.'
  {
  }

  /** After the integer digits, the number group takes exactly the fraction text. */
  lemma NumberEndOf(input: string, fraction: string, rest: string)
    requires input[DigitsEnd(input, 0)..] == FractionText(fraction) + rest
    requires AllDigits(fraction)
    requires rest != [] && !IsDigit(rest[0]) && rest[0] != '.'
    ensures NumberEnd(input) == DigitsEnd(input, 0) + |FractionText(fraction)|
  {
    var i := DigitsEnd(input, 0);
    var tail := input[i..];
    if fraction != [] {
      assert tail == ['.'] + (fraction + rest);
      assert input[i] == tail[0] == '.';
      assert input[i + 1] == tail[1] == fraction[0];
      assert input[i + 1..] == fraction + rest;
      DigitsEndFrom(input, i + 1, fraction, rest);
    } else {
      assert input[i] == tail[0] == rest[0];
    }
  }

  /** Digits `a` at index `k`, followed by something that is not a digit. */
  lemma DigitsEndFrom(s: string, k: nat, a: string, b: string)
    requires k <= |s| && s[k..] == a + b
    requires AllDigits(a) && (b == [] || !IsDigit(b[0]))
    ensures DigitsEnd(s, k) == k + |a|
  {
    forall t | k <= t < k + |a|
      ensures IsDigit(s[t])
    {
      assert s[t] == s[k..][t - k];
    }
    if k + |a| < |s| {
      assert s[k + |a|] == s[k..][|a|];
    }
    DigitsEndAt(s, k, k + |a|);
  }

  /** Blanks `a` at index `k`, followed by something that is not a blank. */
  lemma SpacesEndFrom(s: string, k: nat, a: string, b: string)
    requires k <= |s| && s[k..] == a + b
    requires AllSpaces(a) && (b == [] || !IsSpace(b[0]))
    ensures SpacesEnd(s, k) == k + |a|
  {
    forall t | k <= t < k + |a|
      ensures IsSpace(s[t])
    {
      assert s[t] == s[k..][t - k];
    }
    if k + |a| < |s| {
      assert s[k + |a|] == s[k..][|a|];
    }
    SpacesEndAt(s, k, k + |a|);
  }

  /** The value of the digits after a decimal point: `.d1…dk` is the
      integer `d1…dk` divided by `10^k`. */
  function FractionValue(fraction: string): (v: real)
    requires AllDigits(fraction)
    ensures 0.0 <= v < 1.0
  {
    var n, p := DigitsValue(fraction) as real, Pow10(|fraction|) as real;
    BelowOne(n, p);
    n / p
  }

  lemma BelowOne(n: real, p: real)
    requires 0.0 <= n < p
    ensures 0.0 <= n / p < 1.0
  {
  }

  /** `parseFloat(value)` on a matched number, exactly. */
  function DecimalValue(whole: string, fraction: string): (v: real)
    requires AllDigits(whole) && AllDigits(fraction)
    ensures v >= 0.0
  {
    DigitsValue(whole) as real + FractionValue(fraction)
  }

  /** Without a fraction, a number is worth its integer digits. */
  lemma WholeValue(whole: string)
    requires AllDigits(whole)
    ensures DecimalValue(whole, []) == DigitsValue(whole) as real
  {
    assert FractionValue([]) == 0.0 by {
      assert DigitsValue([]) == 0 && Pow10(0) == 1;
    }
  }

  /** `parseFloat` of `<whole>.<fraction>` is the integer written by all the
      digits, divided by ten to the number of fraction digits. */
  lemma DecimalValueRatio(whole: string, fraction: string)
    requires AllDigits(whole) && AllDigits(fraction)
    ensures AllDigits(whole + fraction)
    ensures DecimalValue(whole, fraction) == DigitsValue(whole + fraction) as real / Pow10(|fraction|) as real
  {
    DigitsValueAppend(whole, fraction);
    RatioStep(DigitsValue(whole), Pow10(|fraction|), DigitsValue(fraction), DigitsValue(whole + fraction));
  }

  lemma RatioStep(a: nat, q: nat, b: nat, d: nat)
    requires q > 0 && d == a * q + b
    ensures d as real / q as real == a as real + b as real / q as real
  {
    assert d as real == a as real * q as real + b as real;
  }

  /** The `switch (unit.toUpperCase())` of the parser, written as the source
      computes it; the `default` branch throws the short "Unknown size unit". */
  function ConvertSize(numValue: real, unit: string): (r: Result<real, SizeError>)
    ensures r.Success? <==> IsSizeUnit(UpperCase(unit))
    ensures r.Failure? ==> r.error == UnhandledSizeUnit(unit)
  {
    match UpperCase(unit)
    case "KB" => Success(numValue * 1024.0)
    case "MB" => Success(numValue * 1024.0 * 1024.0)
    case "GB" => Success(numValue * 1024.0 * 1024.0 * 1024.0)
    case "TB" => Success(numValue * 1024.0 * 1024.0 * 1024.0 * 1024.0)
    case _ => Failure(UnhandledSizeUnit(unit))
  }

  /** `parseHumanReadableSize`: bytes for a valid size; "Unknown size unit"
      for a number followed by other letters; "Invalid size format" for
      anything else. The `default` branch of the switch is never taken. */
  function ParseSize(input: string): (r: Result<real, SizeError>)
    ensures r.Failure? ==> !r.error.UnhandledSizeUnit?
  {
    match MatchSize(input, KnownUnit)
    case Some(m) =>
      assert UpperCase(m.unit) == [AsciiUpper(m.unit[0]), AsciiUpper(m.unit[1])];
      ConvertSize(DecimalValue(m.whole, m.fraction), m.unit)
    case None =>
      match MatchSize(input, Letters)
      case Some(m) => Failure(UnknownSizeUnit(m.unit))
      case None => Failure(InvalidSizeFormat(input))
  }

  /** The conversion table: binary multiples, 1024 bytes to the kilobyte. */
  function Multiplier(unit: string): real
    requires IsSizeUnit(unit)
  {
    match unit
    case "KB" => 1024.0
    case "MB" => 1048576.0
    case "GB" => 1073741824.0
    case "TB" => 1099511627776.0
  }

  /** The first pattern matches exactly when the second does and its letters
      are one of the four units, ignoring case. */
  lemma KnownUnitIsLetters(input: string)
    ensures MatchSize(input, KnownUnit) ==
      if MatchSize(input, Letters).Some? && IsSizeUnit(UpperCase(MatchSize(input, Letters).value.unit))
      then MatchSize(input, Letters) else None
  {
    var unit := input[SpacesEnd(input, NumberEnd(input))..];
    if UnitMatches(KnownUnit, unit) || (UnitMatches(Letters, unit) && IsSizeUnit(UpperCase(unit))) {
      assert |UpperCase(unit)| == 2 ==> UpperCase(unit) == [AsciiUpper(unit[0]), AsciiUpper(unit[1])];
    }
  }

  /** The three outcomes of the parser, each exactly characterised by the
      second pattern (a number, blanks and letters). */
  lemma ParseSizeOutcomes(input: string)
    ensures ParseSize(input).Success? <==>
      MatchSize(input, Letters).Some? && IsSizeUnit(UpperCase(MatchSize(input, Letters).value.unit))
    ensures ParseSize(input) == Failure(InvalidSizeFormat(input)) <==> MatchSize(input, Letters).None?
    ensures forall u :: ParseSize(input) == Failure(UnknownSizeUnit(u)) <==>
      MatchSize(input, Letters).Some? && MatchSize(input, Letters).value.unit == u && !IsSizeUnit(UpperCase(u))
  {
    KnownUnitIsLetters(input);
    match MatchSize(input, KnownUnit)
    case Some(m) =>
      assert UpperCase(m.unit) == [AsciiUpper(m.unit[0]), AsciiUpper(m.unit[1])];
    case None =>
  }

  /** "Invalid size format" is reported exactly for the strings that are not
      a number, blanks and letters at all. */
  lemma InvalidSizeFormatExact(input: string)
    ensures ParseSize(input) == Failure(InvalidSizeFormat(input)) <==>
      forall m :: !SizeShape(input, Letters, m)
  {
    ParseSizeOutcomes(input);
    if MatchSize(input, Letters).Some? {
      MatchSizeSound(input, Letters);
    }
    forall m | SizeShape(input, Letters, m)
      ensures MatchSize(input, Letters).Some?
    {
      var blanks :| SplitsAs(input, m, blanks);
      MatchSizeComplete(input, Letters, m, blanks);
    }
  }

  /** A matched size is its number times the unit's multiple, whatever the
      case of the unit's letters. */
  lemma SizeValue(input: string, m: SizeMatch)
    requires MatchSize(input, KnownUnit) == Some(m)
    ensures IsSizeUnit(UpperCase(m.unit))
    ensures ParseSize(input) == Success(DecimalValue(m.whole, m.fraction) * Multiplier(UpperCase(m.unit)))
  {
    assert UpperCase(m.unit) == [AsciiUpper(m.unit[0]), AsciiUpper(m.unit[1])];
    ParseSizeOfMatch(input, m);
    ConvertKnownUnit(DecimalValue(m.whole, m.fraction), m.unit);
  }

  /** The switch on a known unit multiplies by that unit's multiple. */
  lemma ConvertKnownUnit(v: real, unit: string)
    requires IsSizeUnit(UpperCase(unit))
    ensures ConvertSize(v, unit) == Success(v * Multiplier(UpperCase(unit)))
  {
    var u := UpperCase(unit);
    if u == "KB" {
      assert ConvertSize(v, unit) == Success(v * 1024.0);
      assert Multiplier(u) == 1024.0;
    } else if u == "MB" {
      assert ConvertSize(v, unit) == Success(v * 1024.0 * 1024.0);
      assert Multiplier(u) == 1048576.0;
      assert v * 1024.0 * 1024.0 == v * 1048576.0;
      assert v * Multiplier(u) == v * 1048576.0;
    } else if u == "GB" {
      assert ConvertSize(v, unit) == Success(v * 1024.0 * 1024.0 * 1024.0);
      assert Multiplier(u) == 1073741824.0;
      assert v * 1024.0 * 1024.0 * 1024.0 == v * 1073741824.0;
      assert v * Multiplier(u) == v * 1073741824.0;
    } else {
      assert u == "TB";
      assert ConvertSize(v, unit) == Success(v * 1024.0 * 1024.0 * 1024.0 * 1024.0);
      assert Multiplier(u) == 1099511627776.0;
      assert v * 1024.0 * 1024.0 * 1024.0 * 1024.0 == v * 1099511627776.0;
      assert v * Multiplier(u) == v * 1099511627776.0;
    }
  }

  /** A parsed size is never negative. */
  lemma ParseSizeNonNegative(input: string)
    ensures ParseSize(input).Success? ==> ParseSize(input).value >= 0.0
  {
    match MatchSize(input, KnownUnit)
    case Some(m) =>
      SizeValue(input, m);
      var v, u := DecimalValue(m.whole, m.fraction), UpperCase(m.unit);
      assert v >= 0.0 && Multiplier(u) > 0.0;
    case None =>
  }

  lemma ParseSizeOfMatch(input: string, m: SizeMatch)
    requires MatchSize(input, KnownUnit) == Some(m)
    ensures ParseSize(input) == ConvertSize(DecimalValue(m.whole, m.fraction), m.unit)
  {
  }

  /** A unit of the first pattern is two letters naming a known unit. */
  lemma KnownUnitExact(unit: string)
    ensures UnitMatches(KnownUnit, unit) <==> IsSizeUnit(UpperCase(unit))
  {
    if |unit| == 2 {
      assert UpperCase(unit) == [AsciiUpper(unit[0]), AsciiUpper(unit[1])];
    }
  }

  /** `<n><unit>` parses to `n` times the unit's multiple, for every `n`. */
  lemma SizeOfNumber(n: nat, unit: string)
    requires IsSizeUnit(UpperCase(unit))
    ensures ParseSize(ToDecimal(n) + unit) == Success(n as real * Multiplier(UpperCase(unit)))
  {
    SizeOfNumberAt(n, unit, ToDecimal(n) + unit);
  }

  lemma SizeOfNumberAt(n: nat, unit: string, input: string)
    requires IsSizeUnit(UpperCase(unit))
    requires input == ToDecimal(n) + unit
    ensures ParseSize(input) == Success(n as real * Multiplier(UpperCase(unit)))
  {
    var m := SizeMatch(ToDecimal(n), [], unit);
    NumberMatches(input, m);
    SizeValue(input, m);
    DigitsValueOfDecimal(n);
    WholeValue(m.whole);
  }

  lemma NumberMatches(input: string, m: SizeMatch)
    requires m.whole != [] && AllDigits(m.whole) && m.fraction == [] && IsSizeUnit(UpperCase(m.unit))
    requires input == m.whole + m.unit
    ensures MatchSize(input, KnownUnit) == Some(m)
  {
    KnownUnitExact(m.unit);
    assert SplitsAs(input, m, []) by {
      assert input == m.whole + FractionText([]) + [] + m.unit;
    }
    MatchSizeComplete(input, KnownUnit, m, []);
  }

  /** The repository's "500KB" test. */
  lemma KilobyteExample()
    ensures ParseSize("500KB") == Success(500.0 * 1024.0)
  {
    FiveHundred();
    assert UpperCase("KB") == "KB";
    WholeSizeExample("500KB", "500", "KB");
  }

  /** The repository's "500kb" test: the unit's case does not matter. */
  lemma LowerCaseKilobyteExample()
    ensures ParseSize("500kb") == Success(500.0 * 1024.0)
  {
    FiveHundred();
    assert UpperCase("kb") == "KB";
    WholeSizeExample("500kb", "500", "kb");
  }

  lemma FiveHundred()
    ensures DigitsValue("500") == 500
  {
    assert "500"[..2] == "50" && "50"[..1] == "5" && "5"[..0] == [];
  }

  lemma One()
    ensures DigitsValue("1") == 1
  {
    assert "1"[..0] == [];
  }

  lemma WholeSizeExample(input: string, whole: string, unit: string)
    requires whole != [] && AllDigits(whole) && IsSizeUnit(UpperCase(unit))
    requires input == whole + unit
    ensures ParseSize(input) == Success(DigitsValue(whole) as real * Multiplier(UpperCase(unit)))
  {
    var m := SizeMatch(whole, [], unit);
    NumberMatches(input, m);
    SizeValue(input, m);
    WholeValue(whole);
  }

  /** The repository's "1TB" test. */
  lemma TerabyteExample()
    ensures ParseSize("1TB") == Success(1024.0 * 1024.0 * 1024.0 * 1024.0)
  {
    One();
    assert UpperCase("TB") == "TB";
    WholeSizeExample("1TB", "1", "TB");
    assert Multiplier("TB") == 1024.0 * 1024.0 * 1024.0 * 1024.0;
  }

  /** The budget of the repository's end-to-end test. */
  lemma GigabyteExample()
    ensures ParseSize("1GB") == Success(1073741824.0)
  {
    One();
    assert UpperCase("GB") == "GB";
    WholeSizeExample("1GB", "1", "GB");
    assert Multiplier("GB") == 1073741824.0;
  }

  /** A fractional size, as in the repository's "1.5MB" test. */
  lemma FractionalSizeExample()
    ensures ParseSize("1.5MB") == Success(1.5 * 1024.0 * 1024.0)
  {
    var m := SizeMatch("1", "5", "MB");
    assert DecimalValue("1", "5") == 1.5;
    assert SplitsAs("1.5MB", m, []) by {
      assert "1.5MB" == "1" + FractionText("5") + [] + "MB";
    }
    KnownUnitExact("MB");
    MatchSizeComplete("1.5MB", KnownUnit, m, []);
    SizeValue("1.5MB", m);
  }

  /** The two failure modes of the repository's tests. */
  lemma SizeRejections()
    ensures ParseSize("invalid") == Failure(InvalidSizeFormat("invalid"))
    ensures ParseSize("5PB") == Failure(UnknownSizeUnit("PB"))
  {
    assert DigitsEnd("invalid", 0) == 0;
    ParseSizeOutcomes("invalid");
    var m := SizeMatch("5", [], "PB");
    assert SplitsAs("5PB", m, []) by {
      assert "5PB" == "5" + FractionText([]) + [] + "PB";
    }
    MatchSizeComplete("5PB", Letters, m, []);
    assert UpperCase("PB") == "PB";
    ParseSizeOutcomes("5PB");
  }
}
