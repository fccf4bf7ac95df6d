/** Duration strings: `parse_duration` and `format_duration`. A duration is a number of nanoseconds. */
module Durations {
  import opened Wrappers
  import opened Text

  const U64: nat := 0x1_0000_0000_0000_0000
  const NANOS_PER_MILLI: nat := 1_000_000

  const SECOND: nat := 1000
  const MINUTE: nat := 60 * 1000
  const HOUR: nat := 60 * 60 * 1000
  const DAY: nat := 24 * 60 * 60 * 1000

  datatype DurationError = Empty | InvalidNumber | UnknownUnit | TooLarge

  predicate IsDigit(c: char) {
    '0' <= c <= '9'
  }

  /** Only ASCII letters matter here: no other character has one of the unit letters as its lower case. */
  function Lower(s: string): string {
    seq(|s|, i requires 0 <= i < |s| => if 'A' <= s[i] <= 'Z' then (s[i] as int + 32) as char else s[i])
  }

  function DigitsBefore(s: string): (n: nat)
    ensures n <= |s| && (forall i :: 0 <= i < n ==> IsDigit(s[i])) && (n < |s| ==> !IsDigit(s[n]))
  {
    if s == [] || !IsDigit(s[0]) then 0 else 1 + DigitsBefore(s[1..])
  }

  function DigitValue(c: char): nat
    requires IsDigit(c)
  {
    c as int - '0' as int
  }

  function DecimalValue(s: string): nat
    requires forall i :: 0 <= i < |s| ==> IsDigit(s[i])
  {
    if s == [] then 0 else DecimalValue(s[..|s| - 1]) * 10 + DigitValue(s[|s| - 1])
  }

  function Multiplier(unit: string): Option<nat> {
    var u := Lower(unit);
    if u == "ms" then Some(1)
    else if u == "s" || u == "" then Some(SECOND)
    else if u == "m" then Some(MINUTE)
    else if u == "h" then Some(HOUR)
    else if u == "d" then Some(DAY)
    else None
  }

  function ParseDuration(text: string): Result<nat, DurationError> {
    var s := Trim(text);
    if s == [] then Err(Empty)
    else
      var n := DigitsBefore(s);
      var unit := if n < |s| then s[n..] else "s";
      if n == 0 || DecimalValue(s[..n]) >= U64 then Err(InvalidNumber)
      else
        match Multiplier(unit)
        case None => Err(UnknownUnit)
        case Some(multiplier) =>
          var millis := DecimalValue(s[..n]) * multiplier;
          if millis >= U64 then Err(TooLarge) else Ok(millis * NANOS_PER_MILLI)
  }

  function Decimal(n: nat): string {
    if n < 10 then [(n + '0' as int) as char] else Decimal(n / 10) + [(n % 10 + '0' as int) as char]
  }

  function FormatMillis(millis: nat): string {
    if millis == 0 then "0s"
    else if millis % DAY == 0 then Decimal(millis / DAY) + "d"
    else if millis % HOUR == 0 then Decimal(millis / HOUR) + "h"
    else if millis % MINUTE == 0 then Decimal(millis / MINUTE) + "m"
    else if millis % SECOND == 0 then Decimal(millis / SECOND) + "s"
    else Decimal(millis) + "ms"
  }

  /** Whole milliseconds, kept to 64 bits. */
  function FormatDuration(duration: nat): string {
    FormatMillis(duration / NANOS_PER_MILLI % U64)
  }

  // ----- numbers

  lemma {:induction false} DecimalReadsBack(n: nat)
    ensures Decimal(n) != [] && forall i :: 0 <= i < |Decimal(n)| ==> IsDigit(Decimal(n)[i])
    ensures DecimalValue(Decimal(n)) == n
  {
    if n < 10 {
      assert Decimal(n)[..0] == [];
    } else {
      DecimalReadsBack(n / 10);
      var d := Decimal(n);
      assert d[..|d| - 1] == Decimal(n / 10);
    }
  }

  lemma {:induction false} DigitsEnd(digits: string, unit: string)
    requires forall i :: 0 <= i < |digits| ==> IsDigit(digits[i])
    requires unit != [] && !IsDigit(unit[0])
    ensures DigitsBefore(digits + unit) == |digits|
  {
    if digits == [] {
      assert digits + unit == unit;
    } else {
      assert (digits + unit)[1..] == digits[1..] + unit;
      DigitsEnd(digits[1..], unit);
    }
  }

  // ----- round trip

  predicate IsUnit(unit: string, multiplier: nat) {
    || (unit == "ms" && multiplier == 1) || (unit == "s" && multiplier == SECOND) || (unit == "m" && multiplier == MINUTE)
    || (unit == "h" && multiplier == HOUR) || (unit == "d" && multiplier == DAY)
  }

  lemma UnitReadsBack(unit: string, multiplier: nat)
    requires IsUnit(unit, multiplier)
    ensures Multiplier(unit) == Some(multiplier) && unit != [] && !IsDigit(unit[0])
    ensures !IsWhitespace(unit[|unit| - 1])
  {
    assert Lower(unit) == unit;
  }

  lemma NumberAndUnit(n: nat, unit: string, multiplier: nat)
    requires IsUnit(unit, multiplier) && n * multiplier < U64 && n < U64
    ensures ParseDuration(Decimal(n) + unit) == Ok(n * multiplier * NANOS_PER_MILLI)
  {
    var s := Decimal(n) + unit;
    DecimalReadsBack(n);
    UnitReadsBack(unit, multiplier);
    DigitsEnd(Decimal(n), unit);
    assert s[0] == Decimal(n)[0] && s[|s| - 1] == unit[|unit| - 1];
    assert s[..|Decimal(n)|] == Decimal(n) && s[|Decimal(n)|..] == unit;
  }

  lemma UnitDivides(millis: nat, unit: string, multiplier: nat)
    requires IsUnit(unit, multiplier) && millis < U64 && millis % multiplier == 0
    ensures ParseDuration(Decimal(millis / multiplier) + unit) == Ok(millis * NANOS_PER_MILLI)
  {
    var n := millis / multiplier;
    assert n * multiplier == millis && n <= millis;
    NumberAndUnit(n, unit, multiplier);
  }

  lemma MillisReadBack(millis: nat)
    requires millis < U64
    ensures ParseDuration(FormatMillis(millis)) == Ok(millis * NANOS_PER_MILLI)
  {
    if millis == 0 {
      NumberAndUnit(0, "s", SECOND);
      assert Decimal(0) + "s" == "0s";
    } else if millis % DAY == 0 {
      UnitDivides(millis, "d", DAY);
    } else if millis % HOUR == 0 {
      UnitDivides(millis, "h", HOUR);
    } else if millis % MINUTE == 0 {
      UnitDivides(millis, "m", MINUTE);
    } else if millis % SECOND == 0 {
      UnitDivides(millis, "s", SECOND);
    } else {
      UnitDivides(millis, "ms", 1);
    }
  }

  lemma NothingLost(duration: nat, millis: nat)
    requires millis == duration / NANOS_PER_MILLI
    ensures (millis % U64) * NANOS_PER_MILLI == duration <==> duration % NANOS_PER_MILLI == 0 && millis < U64
  {
    assert duration == millis * NANOS_PER_MILLI + duration % NANOS_PER_MILLI;
    assert millis % U64 <= millis;
  }

  /** Formatting never produces a string that fails to parse, and gives the same duration back exactly for whole milliseconds below 2^64. */
  lemma FormatReadsBack(duration: nat)
    ensures ParseDuration(FormatDuration(duration)).Ok?
    ensures ParseDuration(FormatDuration(duration)) == Ok(duration) <==>
              duration % NANOS_PER_MILLI == 0 && duration / NANOS_PER_MILLI < U64
  {
    var millis := duration / NANOS_PER_MILLI;
    NothingLost(duration, millis);
    MillisReadBack(millis % U64);
  }

  /** Every string that parses has a canonical form, which parses to the same duration and is its own canonical form. */
  lemma CanonicalForm(text: string)
    requires ParseDuration(text).Ok?
    ensures var canonical := FormatDuration(ParseDuration(text).value);
            && ParseDuration(canonical) == ParseDuration(text)
            && FormatDuration(ParseDuration(canonical).value) == canonical
  {
    FormatReadsBack(ParseDuration(text).value);
  }

  /** The format uses the largest unit that divides the duration evenly. */
  lemma LargestUnit(millis: nat) returns (unit: string, multiplier: nat)
    requires millis > 0
    ensures IsUnit(unit, multiplier) && millis % multiplier == 0
    ensures FormatMillis(millis) == Decimal(millis / multiplier) + unit
    ensures forall u, m: nat :: IsUnit(u, m) && m > multiplier ==> millis % m != 0
  {
    if millis % DAY == 0 {
      unit, multiplier := "d", DAY;
    } else if millis % HOUR == 0 {
      unit, multiplier := "h", HOUR;
    } else if millis % MINUTE == 0 {
      unit, multiplier := "m", MINUTE;
    } else if millis % SECOND == 0 {
      unit, multiplier := "s", SECOND;
    } else {
      unit, multiplier := "ms", 1;
    }
  }

  // ----- what parses

  /** The text is digits and a unit in either case, seconds if there is none, between optional white space. */
  ghost predicate Splits(text: string, digits: string, unit: string, multiplier: nat) {
    && Trim(text) == digits + unit
    && digits != [] && (forall i :: 0 <= i < |digits| ==> IsDigit(digits[i]))
    && (IsUnit(Lower(unit), multiplier) || (unit == [] && multiplier == SECOND))
  }

  ghost predicate Denotes(text: string, millis: nat) {
    exists digits, unit, multiplier: nat ::
      Splits(text, digits, unit, multiplier) && millis == DecimalValue(digits) * multiplier
  }

  lemma LowerUnit(unit: string, multiplier: nat)
    requires IsUnit(Lower(unit), multiplier)
    ensures Multiplier(unit) == Some(multiplier) && unit != [] && !IsDigit(unit[0]) && multiplier >= 1
  {
    assert |Lower(unit)| == |unit| && Lower(unit)[0] == if 'A' <= unit[0] <= 'Z' then (unit[0] as int + 32) as char else unit[0];
  }

  lemma SplitParses(text: string, digits: string, unit: string, multiplier: nat)
    requires Splits(text, digits, unit, multiplier)
    ensures var millis := DecimalValue(digits) * multiplier;
            if millis < U64 then ParseDuration(text) == Ok(millis * NANOS_PER_MILLI) else ParseDuration(text).Err?
  {
    var s := Trim(text);
    if unit == [] {
      assert s == digits;
      assert s[..|s|] == digits;
      UnitReadsBack("s", SECOND);
    } else {
      LowerUnit(unit, multiplier);
      DigitsEnd(digits, unit);
      assert s[..|digits|] == digits && s[|digits|..] == unit;
    }
    assert DecimalValue(digits) <= DecimalValue(digits) * multiplier;
  }

  lemma ParsedSplits(text: string) returns (digits: string, unit: string, multiplier: nat)
    requires ParseDuration(text).Ok?
    ensures Splits(text, digits, unit, multiplier)
    ensures ParseDuration(text).value == DecimalValue(digits) * multiplier * NANOS_PER_MILLI
    ensures DecimalValue(digits) * multiplier < U64
  {
    var s := Trim(text);
    var n := DigitsBefore(s);
    digits, unit := s[..n], s[n..];
    assert s == digits + unit;
    if unit == [] {
      multiplier := SECOND;
      UnitReadsBack("s", SECOND);
    } else {
      multiplier := Multiplier(unit).value;
    }
  }

  /** `parse_duration` accepts exactly these texts, up to 2^64 milliseconds, with the value they denote. */
  lemma ParsesWhatItDenotes(text: string, millis: nat)
    ensures ParseDuration(text) == Ok(millis * NANOS_PER_MILLI) <==> Denotes(text, millis) && millis < U64
  {
    if Denotes(text, millis) {
      var digits, unit, multiplier: nat :| Splits(text, digits, unit, multiplier) && millis == DecimalValue(digits) * multiplier;
      SplitParses(text, digits, unit, multiplier);
    }
    if ParseDuration(text) == Ok(millis * NANOS_PER_MILLI) {
      var digits, unit, multiplier := ParsedSplits(text);
      assert millis == DecimalValue(digits) * multiplier;
    }
  }
}
