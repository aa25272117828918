/**
 * `parse_duration`: lower-cases its argument and matches `(\d+)([mhdw])`
 * at the start of it (Python's `re.match`, anchored at the start only),
 * returning amount * seconds-per-unit, or None when nothing matches.
 */
module Duration {
  import opened Wrappers

  predicate IsDigit(c: char) { '0' <= c <= '9' }

  predicate AllDigits(s: string) { forall i :: 0 <= i < |s| ==> IsDigit(s[i]) }

  /** Lower-casing of one character (the ASCII letters only). */
  function LowerChar(c: char): char
  {
    if 'A' <= c <= 'Z' then (c as int + 32) as char else c
  }

  function Lower(s: string): (t: string)
    ensures |t| == |s|
  {
    seq(|s|, i requires 0 <= i < |s| => LowerChar(s[i]))
  }

  /** Seconds per unit letter, as the `multipliers` table gives them. */
  function UnitSeconds(unit: char): (r: Option<nat>)
    ensures r.Some? <==> unit in "mhdw"
    ensures r.Some? ==> r.value > 0 && r.value % 60 == 0
  {
    match unit
    case 'm' => Some(60)
    case 'h' => Some(3600)
    case 'd' => Some(86400)
    case 'w' => Some(604800)
    case _ => None
  }

  /** Length of the maximal run of digits that starts `s` (what the greedy `\d+` consumes). */
  function DigitRun(s: string): (n: nat)
    ensures n <= |s|
    ensures AllDigits(s[..n])
    ensures n < |s| ==> !IsDigit(s[n])
  {
    if s == [] || !IsDigit(s[0]) then 0
    else
      var n := 1 + DigitRun(s[1..]);
      assert s[..n] == [s[0]] + s[1..][..n - 1];
      n
  }

  /** Python's `int` of a string of decimal digits (leading zeros allowed). */
  function DecimalValue(digits: string): nat
    requires AllDigits(digits)
  {
    if digits == [] then 0
    else 10 * DecimalValue(digits[..|digits| - 1]) + (digits[|digits| - 1] as int - '0' as int)
  }

  function ParseDuration(duration: string): (r: Option<int>)
    ensures r.Some? ==> r.value >= 0 && r.value % 60 == 0
  {
    var t := Lower(duration);
    var n := DigitRun(t);
    if n == 0 || n == |t| then None
    else
      match UnitSeconds(t[n])
      case None => None
      case Some(seconds) => Some(DecimalValue(t[..n]) * seconds)
  }

  /** `t` starts with the digit string `digits` immediately followed by the unit letter `unit`. */
  ghost predicate StartsWithAmountAndUnit(t: string, digits: string, unit: char)
  {
    && |digits| >= 1 && AllDigits(digits)
    && UnitSeconds(unit).Some?
    && |digits| < |t| && t[..|digits|] == digits && t[|digits|] == unit
  }

  /** The digit run of a string that starts with digits and then a non-digit is exactly those digits. */
  lemma {:induction false} DigitRunOfPrefix(t: string, digits: string)
    requires AllDigits(digits) && |digits| < |t| && t[..|digits|] == digits && !IsDigit(t[|digits|])
    ensures DigitRun(t) == |digits|
  {
    if digits != [] {
      assert t[1..][..|digits| - 1] == digits[1..];
      DigitRunOfPrefix(t[1..], digits[1..]);
    }
  }

  /**
   * A duration is recognised exactly when the lower-cased string starts
   * with a non-empty run of digits followed by m, h, d or w; its value is
   * then the amount times the unit's seconds, whatever follows the unit.
   */
  lemma ParseDurationCharacterised(duration: string, v: int)
    ensures ParseDuration(duration) == Some(v) <==>
      exists digits, unit :: StartsWithAmountAndUnit(Lower(duration), digits, unit)
                             && v == DecimalValue(digits) * UnitSeconds(unit).value
  {
    var t := Lower(duration);
    if ParseDuration(duration) == Some(v) {
      var n := DigitRun(t);
      assert StartsWithAmountAndUnit(t, t[..n], t[n]);
    }
    if exists digits, unit :: StartsWithAmountAndUnit(t, digits, unit)
                              && v == DecimalValue(digits) * UnitSeconds(unit).value {
      var digits, unit :| StartsWithAmountAndUnit(t, digits, unit)
                          && v == DecimalValue(digits) * UnitSeconds(unit).value;
      DigitRunOfPrefix(t, digits);
    }
  }

  /** None exactly when no amount-and-unit prefix exists. */
  lemma ParseDurationNone(duration: string)
    ensures ParseDuration(duration).None? <==>
      forall digits, unit :: !StartsWithAmountAndUnit(Lower(duration), digits, unit)
  {
    var t := Lower(duration);
    if ParseDuration(duration).Some? {
      var n := DigitRun(t);
      assert StartsWithAmountAndUnit(t, t[..n], t[n]);
    }
    if exists digits, unit :: StartsWithAmountAndUnit(t, digits, unit) {
      var digits, unit :| StartsWithAmountAndUnit(t, digits, unit);
      DigitRunOfPrefix(t, digits);
    }
  }

  /** Decimal rendering of a natural number, the inverse of DecimalValue. */
  function Show(n: nat): (s: string)
    ensures |s| >= 1 && AllDigits(s)
  {
    var d := ['0' + (n % 10) as char];
    if n < 10 then d else Show(n / 10) + d
  }

  lemma {:induction false} DecimalValueOfShow(n: nat)
    ensures DecimalValue(Show(n)) == n
  {
    if n >= 10 {
      DecimalValueOfShow(n / 10);
      var s := Show(n);
      assert s[..|s| - 1] == Show(n / 10);
    }
  }

  lemma LowerOfDigits(s: string)
    requires AllDigits(s)
    ensures Lower(s) == s
  {
  }

  lemma LowerAppend(a: string, b: string)
    ensures Lower(a + b) == Lower(a) + Lower(b)
  {
  }

  /**
   * Round trip: printing an amount, a unit letter in either case and any
   * trailing text parses back to amount * seconds of that unit.
   */
  lemma ParseShownDuration(amount: nat, unit: char, rest: string)
    requires UnitSeconds(LowerChar(unit)).Some?
    ensures ParseDuration(Show(amount) + [unit] + rest) == Some(amount * UnitSeconds(LowerChar(unit)).value)
  {
    var digits := Show(amount);
    var s := digits + [unit] + rest;
    LowerAppend(digits + [unit], rest);
    LowerAppend(digits, [unit]);
    LowerOfDigits(digits);
    var t := Lower(s);
    assert t == digits + [LowerChar(unit)] + Lower(rest);
    assert t[..|digits|] == digits;
    DigitRunOfPrefix(t, digits);
    assert t[..DigitRun(t)] == digits;
    DecimalValueOfShow(amount);
  }

  /** A zero amount is valid and yields zero seconds; either case of the unit letter is accepted. */
  lemma ParseDurationValidExamples()
    ensures ParseDuration("0m") == Some(0)
    ensures ParseDuration("10m") == Some(600)
    ensures ParseDuration("2W") == Some(1209600)
    ensures ParseDuration("1h30m") == Some(3600)
  {
    ParseShownDuration(0, 'm', "");
    assert Show(0) + ['m'] + "" == "0m";
    ParseShownDuration(10, 'm', "");
    assert Show(10) == Show(1) + ['0'];
    assert Show(10) + ['m'] + "" == "10m";
    ParseShownDuration(2, 'W', "");
    assert Show(2) + ['W'] + "" == "2W";
    ParseShownDuration(1, 'h', "30m");
    assert Show(1) + ['h'] + "30m" == "1h30m";
  }

  /** A leading space, a missing amount, a missing unit or an unknown unit is rejected. */
  lemma ParseDurationInvalidExamples()
    ensures ParseDuration(" 5m") == None
    ensures ParseDuration("15") == None
    ensures ParseDuration("5s") == None
    ensures ParseDuration("m") == None
  {
    assert Lower(" 5m")[0] == ' ';
    assert Lower("m")[0] == 'm';
    var t := Lower("15");
    assert t == "15";
    assert DigitRun(t) == |t|;
    assert Lower("5s") == "5s";
    DigitRunOfPrefix("5s", "5");
  }
}
