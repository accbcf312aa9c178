/**
 * `convertTicksToString`: the elapsed-time text of the side panel and of
 * the game-over overlay, from a count of game ticks (20 per second).
 */
module TicksText {
  import opened Wrappers

  /** `TICKRATE`: ticks per second. */
  const TickRate: nat := 20

  /** JavaScript's `%`: the remainder takes the sign of the dividend. */
  function JsRem(a: int, b: int): (r: int)
    requires b > 0
    ensures a >= 0 ==> 0 <= r < b
    ensures a < 0 ==> -b < r <= 0
    ensures (a - r) % b == 0
  {
    if a >= 0 then
      RemainderLeavesMultiple(a, b);
      a % b
    else
      RemainderLeavesMultiple(-a, b);
      MultipleMod(-((-a) / b), b);
      -((-a) % b)
  }

  /** Taking away the remainder leaves a multiple of the divisor. */
  lemma RemainderLeavesMultiple(a: int, b: int)
    requires b > 0
    ensures a - a % b == (a / b) * b && (a - a % b) % b == 0
  {
    MultipleMod(a / b, b);
  }

  /** A multiple of `b` leaves no remainder. */
  lemma MultipleMod(q: int, b: int)
    requires b > 0
    ensures (q * b) % b == 0
  {
    var q0, r0 := (q * b) / b, (q * b) % b;
    assert q * b == b * q0 + r0;
    var k := q - q0;
    assert b * k == r0 by {
      assert b * k == b * q - b * q0;
    }
  }

  predicate IsDigit(c: char)
  {
    '0' <= c <= '9'
  }

  function DigitValue(c: char): nat
    requires IsDigit(c)
  {
    (c as int - '0' as int) as nat
  }

  function Digit(d: nat): (c: char)
    requires d < 10
    ensures IsDigit(c) && DigitValue(c) == d
  {
    ('0' as int + d) as char
  }

  /** The decimal text JavaScript gives a non-negative integer. */
  function NatToString(n: nat): (s: string)
    ensures |s| > 0 && forall i :: 0 <= i < |s| ==> IsDigit(s[i])
  {
    if n < 10 then [Digit(n)] else NatToString(n / 10) + [Digit(n % 10)]
  }

  function MinutesText(minutes: nat): string
  {
    if minutes == 0 then ""
    else if minutes == 1 then "1 minute "
    else NatToString(minutes) + " minutes "
  }

  function SecondsText(seconds: nat): string
  {
    if seconds == 0 then ""
    else if seconds == 1 then "1 second"
    else NatToString(seconds) + " seconds"
  }

  /** `convertTicksToString(ticks)`: never empty, and always led by a number. */
  function TicksToString(ticks: int): (r: string)
    ensures |r| > 0 && IsDigit(r[0])
  {
    var secondsSinceStart := ticks / TickRate;  // Math.floor: Dafny's division by a positive number floors
    var minutes := secondsSinceStart / 60;      // Math.floor again
    var seconds := JsRem(secondsSinceStart, 60);
    if seconds > 0 || minutes > 0 then MinutesText(minutes) + SecondsText(seconds)
    else "0 seconds"
  }

  /** Less than one second of ticks, negative counts included, reads "0 seconds". */
  lemma BelowOneSecond(ticks: int)
    requires ticks < TickRate
    ensures TicksToString(ticks) == "0 seconds"
  {
  }

  /**
   * From one second on, the text is the minutes part followed by the seconds
   * part, with minutes = floor(ticks / 20) div 60 and seconds = floor(ticks / 20) mod 60;
   * a zero part contributes no text at all.
   */
  lemma FromOneSecond(ticks: int)
    requires ticks >= TickRate
    ensures TicksToString(ticks) == MinutesText(ticks / TickRate / 60) + SecondsText(ticks / TickRate % 60)
    ensures TicksToString(ticks) != ""
    ensures ticks / TickRate == 60 * (ticks / TickRate / 60) + ticks / TickRate % 60
  {
  }

  /** The singular forms: exactly one minute reads "1 minute ", exactly one second ends in "1 second". */
  lemma SingularForms(ticks: int)
    requires ticks >= TickRate
    ensures ticks / TickRate / 60 == 1 ==> TicksToString(ticks)[..9] == "1 minute "
    ensures ticks / TickRate % 60 == 1 ==>
      |TicksToString(ticks)| >= 8 && TicksToString(ticks)[|TicksToString(ticks)| - 8..] == "1 second"
  {
    FromOneSecond(ticks);
  }

  /** The text ends in a space exactly when a whole number of minutes has passed. */
  lemma TrailingSpace(ticks: int)
    requires ticks >= TickRate
    ensures |TicksToString(ticks)| > 0
    ensures TicksToString(ticks)[|TicksToString(ticks)| - 1] == ' ' <==> ticks / TickRate % 60 == 0
  {
    FromOneSecond(ticks);
  }

  // Reading the text back.

  /** The value of a run of digits read left to right, starting from `acc`. */
  function DigitsValue(ds: string, acc: nat): nat
    requires forall i :: 0 <= i < |ds| ==> IsDigit(ds[i])
  {
    if ds == [] then acc else DigitsValue(ds[1..], acc * 10 + DigitValue(ds[0]))
  }

  /** Reads the longest run of digits at the front of `s`: its value and what follows it. */
  function ReadDigits(s: string, acc: nat): (nat, string)
  {
    if s != [] && IsDigit(s[0]) then ReadDigits(s[1..], acc * 10 + DigitValue(s[0])) else (acc, s)
  }

  /** Parses the text `convertTicksToString` produces back into whole seconds. */
  function ParseTime(s: string): Option<nat>
  {
    if s == [] || !IsDigit(s[0]) then None
    else
      var (first, rest) := ReadDigits(s, 0);
      ParseUnits(first, rest)
  }

  /** What may follow the first number: a seconds unit, or a minutes unit and perhaps a seconds part. */
  function ParseUnits(first: nat, rest: string): Option<nat>
  {
    if rest == " second" || rest == " seconds" then Some(first)
    else if rest == " minute " || rest == " minutes " then Some(60 * first)
    else if |rest| >= 8 && rest[..8] == " minute " then ParseSeconds(60 * first, rest[8..])
    else if |rest| >= 9 && rest[..9] == " minutes " then ParseSeconds(60 * first, rest[9..])
    else None
  }

  /** Parses the seconds part that may follow a minutes part. */
  function ParseSeconds(minuteSeconds: nat, s: string): Option<nat>
  {
    if s == [] || !IsDigit(s[0]) then None
    else
      var (seconds, rest) := ReadDigits(s, 0);
      if rest == " second" || rest == " seconds" then Some(minuteSeconds + seconds) else None
  }

  lemma {:induction false} DigitsValueSnoc(ds: string, c: char, acc: nat)
    requires forall i :: 0 <= i < |ds| ==> IsDigit(ds[i])
    requires IsDigit(c)
    ensures DigitsValue(ds + [c], acc) == DigitsValue(ds, acc) * 10 + DigitValue(c)
    decreases |ds|
  {
    if ds == [] {
      assert ds + [c] == [c];
    } else {
      assert (ds + [c])[1..] == ds[1..] + [c];
      DigitsValueSnoc(ds[1..], c, acc * 10 + DigitValue(ds[0]));
    }
  }

  /** The decimal text of `n` reads back as `n`. */
  lemma {:induction false} NatToStringValue(n: nat)
    ensures DigitsValue(NatToString(n), 0) == n
  {
    if n < 10 {
      assert NatToString(n)[1..] == [];
    } else {
      NatToStringValue(n / 10);
      DigitsValueSnoc(NatToString(n / 10), Digit(n % 10), 0);
    }
  }

  lemma {:induction false} ReadDigitsOfDigits(ds: string, rest: string, acc: nat)
    requires forall i :: 0 <= i < |ds| ==> IsDigit(ds[i])
    requires rest == [] || !IsDigit(rest[0])
    ensures ReadDigits(ds + rest, acc) == (DigitsValue(ds, acc), rest)
    decreases |ds|
  {
    if ds == [] {
      assert ds + rest == rest;
    } else {
      assert (ds + rest)[1..] == ds[1..] + rest;
      ReadDigitsOfDigits(ds[1..], rest, acc * 10 + DigitValue(ds[0]));
    }
  }

  /** A number followed by text that does not start with a digit reads back as that number and that text. */
  lemma ReadNumber(n: nat, rest: string)
    requires rest == [] || !IsDigit(rest[0])
    ensures ReadDigits(NatToString(n) + rest, 0) == (n, rest)
  {
    ReadDigitsOfDigits(NatToString(n), rest, 0);
    NatToStringValue(n);
  }

  lemma SecondsRoundTrip(minuteSeconds: nat, seconds: nat)
    requires seconds > 0
    ensures ParseSeconds(minuteSeconds, SecondsText(seconds)) == Some(minuteSeconds + seconds)
  {
    var unit := if seconds == 1 then " second" else " seconds";
    assert SecondsText(seconds) == NatToString(seconds) + unit;
    ReadNumber(seconds, unit);
  }

  /** A seconds part alone reads back as that many seconds. */
  lemma ParseSecondsOnly(seconds: nat)
    requires seconds > 0
    ensures ParseTime(SecondsText(seconds)) == Some(seconds)
  {
    var unit := if seconds == 1 then " second" else " seconds";
    assert SecondsText(seconds) == NatToString(seconds) + unit;
    ReadNumber(seconds, unit);
  }

  /** What follows the minutes number decides the parse: the unit alone, or the unit and a seconds part. */
  lemma ParseAfterMinutesNumber(minutes: nat, unit: string, seconds: nat)
    requires unit == " minute " || unit == " minutes "
    ensures ParseTime(NatToString(minutes) + (unit + SecondsText(seconds))) == Some(60 * minutes + seconds)
  {
    if seconds == 0 {
      assert unit + SecondsText(seconds) == unit;
      ParseMinutesUnitOnly(minutes, unit);
    } else {
      ParseMinutesThenSeconds(minutes, unit, seconds);
    }
  }

  lemma ParseMinutesUnitOnly(minutes: nat, unit: string)
    requires unit == " minute " || unit == " minutes "
    ensures ParseTime(NatToString(minutes) + unit) == Some(60 * minutes)
  {
    ReadNumber(minutes, unit);
    var text := NatToString(minutes) + unit;
    assert text[0] == NatToString(minutes)[0];
    assert unit[1] == 'm';
    assert unit != " second" && unit != " seconds";
  }

  lemma ParseMinutesThenSeconds(minutes: nat, unit: string, seconds: nat)
    requires unit == " minute " || unit == " minutes "
    requires seconds > 0
    ensures ParseTime(NatToString(minutes) + (unit + SecondsText(seconds))) == Some(60 * minutes + seconds)
  {
    var rest := unit + SecondsText(seconds);
    ReadNumber(minutes, rest);
    var text := NatToString(minutes) + rest;
    assert text[0] == NatToString(minutes)[0];
    MinutesUnitThenSeconds(minutes, unit, seconds);
    SecondsRoundTrip(60 * minutes, seconds);
  }

  lemma MinutesUnitThenSeconds(minutes: nat, unit: string, seconds: nat)
    requires unit == " minute " || unit == " minutes "
    requires seconds > 0
    ensures ParseUnits(minutes, unit + SecondsText(seconds)) == ParseSeconds(60 * minutes, SecondsText(seconds))
  {
    var rest := unit + SecondsText(seconds);
    assert rest[1] == 'm';
    assert rest != " second" && rest != " seconds";
    assert |rest| > |unit|;
    assert rest != " minute " && rest != " minutes ";
    assert rest[..|unit|] == unit && rest[|unit|..] == SecondsText(seconds);
    if unit == " minutes " {
      assert rest[..8] != " minute " by { assert rest[7] == 's'; }
    }
  }

  /** A minutes part, followed by a seconds part or not, reads back as the total in seconds. */
  lemma ParseMinutesAndSeconds(minutes: nat, seconds: nat)
    requires minutes > 0
    ensures ParseTime(MinutesText(minutes) + SecondsText(seconds)) == Some(60 * minutes + seconds)
  {
    var unit := if minutes == 1 then " minute " else " minutes ";
    assert MinutesText(minutes) == NatToString(minutes) + unit;
    assert MinutesText(minutes) + SecondsText(seconds) == NatToString(minutes) + (unit + SecondsText(seconds));
    ParseAfterMinutesNumber(minutes, unit, seconds);
  }

  /**
   * The text gives back exactly how many whole seconds have elapsed (none
   * for a count below one second), so different seconds never share a text.
   */
  lemma ParseTicksToString(ticks: int)
    ensures ParseTime(TicksToString(ticks)) == Some(if ticks < 0 then 0 else ticks / TickRate)
  {
    if ticks < TickRate {
      BelowOneSecond(ticks);
      ReadNumber(0, " seconds");
      assert NatToString(0) + " seconds" == "0 seconds";
    } else {
      FromOneSecond(ticks);
      var m, s := ticks / TickRate / 60, ticks / TickRate % 60;
      if m == 0 {
        assert MinutesText(m) + SecondsText(s) == SecondsText(s);
        ParseSecondsOnly(s);
      } else {
        ParseMinutesAndSeconds(m, s);
      }
    }
  }
}
