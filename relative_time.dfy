/** `timeSince`: turns the distance between two instants into a relative
    phrase ("2 hours ago", "in 5 seconds"), falling back to an absolute
    date when relative formatting is unavailable. */
module RelativeTime {
  import opened JsRuntime

  /** The unit names passed to `Intl.RelativeTimeFormat.prototype.format`. */
  datatype Unit = Seconds | Minutes | Hours | Days | Months | Years

  /** The presentation modes of `formatDate`. */
  datatype DateFormat = Full | Short | Date

  /** `timeSince`'s default fallback mode. */
  const DefaultFallbackFormat: DateFormat := Short

  /** `rtf.format(value, unit)` of a formatter built with `numeric: "auto"`;
      `None` when the call throws. */
  type RelFormat = (int, Unit) -> Option<string>

  /** `new Intl.RelativeTimeFormat(locale, { numeric: "auto" })`; `None` when
      the constructor throws (an unsupported locale, or no `Intl` support). */
  type RelFormatFactory = string -> Option<RelFormat>

  /** `formatDate(locale, date, format)`; `None` when it throws. Its own
      fallback, `date.toLocaleString(locale)`, runs outside any `try`, so a
      malformed locale tag makes it throw. */
  type DateFormatter = (string, int, DateFormat) -> Option<string>

  /** The six rounded amounts `timeSince` computes before choosing one. */
  datatype Elapsed = Elapsed(seconds: int, minutes: int, hours: int, days: int, months: int, years: int)

  /** Each amount is rounded from the previous ROUNDED amount, so rounding
      errors compound; years are rounded from days, not from months. */
  function Derive(diffMs: int): Elapsed {
    var seconds := RoundDiv(diffMs, 1000);
    var minutes := RoundDiv(seconds, 60);
    var hours := RoundDiv(minutes, 60);
    var days := RoundDiv(hours, 24);
    var months := RoundDiv(days, 30);
    var years := RoundDiv(days, 365);
    Elapsed(seconds, minutes, hours, days, months, years)
  }

  /** For a past target, coarser units never hold more than finer ones and
      none is negative. */
  lemma DeriveShrinks(diffMs: int)
    requires diffMs >= 0
    ensures var e := Derive(diffMs);
      && 0 <= e.months <= e.days <= e.hours <= e.minutes <= e.seconds
      && 0 <= e.years <= e.days
  {
    var e := Derive(diffMs);
    RoundDivWithin(diffMs, 1000);
    RoundDivWithin(e.seconds, 60);
    RoundDivWithin(e.minutes, 60);
    RoundDivWithin(e.hours, 24);
    RoundDivWithin(e.days, 30);
    RoundDivWithin(e.days, 365);
  }

  /** One operand `(guard && rtf.format(value, unit))` of the `||` chain. */
  datatype Candidate = Candidate(guard: bool, unit: Unit, value: int)

  /** The chain's operands in source order; the last one is unguarded. */
  function Candidates(e: Elapsed): (cs: seq<Candidate>)
    ensures |cs| == 6 && cs[5].guard
  {
    [ Candidate(e.seconds < 60, Seconds, -1 * e.seconds),
      Candidate(e.minutes < 60, Minutes, -1 * e.minutes),
      Candidate(e.hours < 24, Hours, -1 * e.hours),
      Candidate(e.days < 30, Days, -1 * e.days),
      Candidate(e.days < 365, Months, -1 * e.months),
      Candidate(true, Years, -1 * e.years) ]
  }

  /** The position of the first operand whose guard holds. */
  function FirstHolding(cs: seq<Candidate>): (i: nat)
    requires |cs| > 0 && cs[|cs| - 1].guard
    ensures i < |cs| && cs[i].guard
    ensures forall k :: 0 <= k < i ==> !cs[k].guard
  {
    if cs[0].guard then 0 else 1 + FirstHolding(cs[1..])
  }

  /** The (unit, value) pair that `timeSince` hands to the formatter for a
      difference of `diffMs` milliseconds (`now - date`). */
  function Select(diffMs: int): (b: Candidate)
    ensures b.guard && b in Candidates(Derive(diffMs))
  {
    var cs := Candidates(Derive(diffMs));
    cs[FirstHolding(cs)]
  }

  /** Evaluation of the `||` chain: an operand whose guard fails is `false`
      and the next is tried; a guard that holds calls the formatter, whose
      string ends the chain unless it is the falsy empty string; a throwing
      call aborts the whole chain (`None`). The last operand is returned
      as it is. */
  function Chain(cs: seq<Candidate>, format: RelFormat): (r: Option<string>)
    requires |cs| > 0 && cs[|cs| - 1].guard
    ensures exists k :: 0 <= k < |cs| && cs[k].guard && format(cs[k].value, cs[k].unit) == r
  {
    if |cs| == 1 then format(cs[0].value, cs[0].unit)
    else if !cs[0].guard || format(cs[0].value, cs[0].unit) == Some("") then
      var r := Chain(cs[1..], format);
      var k :| 0 <= k < |cs| - 1 && cs[1..][k].guard && format(cs[1..][k].value, cs[1..][k].unit) == r;
      assert cs[k + 1] == cs[1..][k];
      r
    else format(cs[0].value, cs[0].unit)
  }

  /** `timeSince(locale, now, date, dateFormat)` with instants as
      millisecond timestamps. */
  function TimeSince(locale: string, now: int, date: int, dateFormat: DateFormat,
                     newRtf: RelFormatFactory, formatDate: DateFormatter): (r: Option<string>)
    ensures r.None? ==> formatDate(locale, date, dateFormat).None?
  {
    match newRtf(locale)
    case None => formatDate(locale, date, dateFormat)
    case Some(rtf) =>
      match Chain(Candidates(Derive(now - date)), rtf)
      case None => formatDate(locale, date, dateFormat)
      case Some(s) => Some(s)
  }

  // ---------------------------------------------------------------------
  // Properties

  /** A formatter that never produces the empty string (what every
      `Intl.RelativeTimeFormat` does). */
  ghost predicate NeverEmpty(format: RelFormat) {
    forall v, u :: format(v, u) != Some("")
  }

  /** With a formatter that never yields "", the chain formats exactly the
      first operand whose guard holds; no later operand is consulted. */
  lemma {:induction false} ChainFormatsFirstHolding(cs: seq<Candidate>, format: RelFormat)
    requires |cs| > 0 && cs[|cs| - 1].guard
    requires NeverEmpty(format)
    ensures Chain(cs, format) == format(cs[FirstHolding(cs)].value, cs[FirstHolding(cs)].unit)
  {
    if |cs| > 1 && !cs[0].guard {
      ChainFormatsFirstHolding(cs[1..], format);
    } else if |cs| > 1 {
      assert format(cs[0].value, cs[0].unit) != Some("");
    }
  }

  /** `timeSince` formats the selected bucket; it falls back to
      `formatDate(locale, date, dateFormat)` exactly when the formatter
      cannot be built or throws on that bucket, and it throws (`None`)
      exactly when that fallback throws too. */
  lemma TimeSinceFormatsSelection(locale: string, now: int, date: int, dateFormat: DateFormat,
                                  newRtf: RelFormatFactory, formatDate: DateFormatter)
    requires newRtf(locale).Some? ==> NeverEmpty(newRtf(locale).value)
    ensures newRtf(locale).None? ==>
      TimeSince(locale, now, date, dateFormat, newRtf, formatDate) == formatDate(locale, date, dateFormat)
    ensures newRtf(locale).Some? ==>
      var b := Select(now - date);
      TimeSince(locale, now, date, dateFormat, newRtf, formatDate) ==
        match newRtf(locale).value(b.value, b.unit)
        case None => formatDate(locale, date, dateFormat)
        case Some(s) => Some(s)
  {
    if newRtf(locale).Some? {
      ChainFormatsFirstHolding(Candidates(Derive(now - date)), newRtf(locale).value);
    }
  }

  /** The selection spelled out guard by guard, in source order. */
  lemma SelectByGuards(diffMs: int)
    ensures var e := Derive(diffMs);
      Select(diffMs) ==
        if e.seconds < 60 then Candidate(true, Seconds, -e.seconds)
        else if e.minutes < 60 then Candidate(true, Minutes, -e.minutes)
        else if e.hours < 24 then Candidate(true, Hours, -e.hours)
        else if e.days < 30 then Candidate(true, Days, -e.days)
        else if e.days < 365 then Candidate(true, Months, -e.months)
        else Candidate(true, Years, -e.years)
  {
    var cs := Candidates(Derive(diffMs));
    var i := FirstHolding(cs);
    if cs[0].guard { assert i == 0; }
    else if cs[1].guard { assert i == 1; }
    else if cs[2].guard { assert i == 2; }
    else if cs[3].guard { assert i == 3; }
    else if cs[4].guard { assert i == 4; }
    else { assert i == 5; }
  }

  /** The bucket as a function of the millisecond difference alone: the
      compounded roundings amount to these half-open ranges. */
  function UnitByThreshold(diffMs: int): Unit {
    if diffMs < 59_500 then Seconds
    else if diffMs < 3_569_500 then Minutes
    else if diffMs < 84_569_500 then Hours
    else if diffMs < 2_546_969_500 then Days
    else if diffMs < 31_490_969_500 then Months
    else Years
  }

  /** Each guard of the chain, restated on the millisecond difference. */
  lemma GuardThresholds(diffMs: int)
    ensures var e := Derive(diffMs);
      && (e.seconds < 60 <==> diffMs < 59_500)
      && (e.minutes < 60 <==> diffMs < 3_569_500)
      && (e.hours < 24 <==> diffMs < 84_569_500)
      && (e.days < 30 <==> diffMs < 2_546_969_500)
      && (e.days < 365 <==> diffMs < 31_490_969_500)
  {
    var e := Derive(diffMs);
    RoundDivBelow(diffMs, 1000, 60);
    RoundDivBelow(e.seconds, 60, 60);
    RoundDivBelow(diffMs, 1000, 3570);
    RoundDivBelow(e.minutes, 60, 24);
    RoundDivBelow(e.seconds, 60, 1410);
    RoundDivBelow(diffMs, 1000, 84570);
    RoundDivBelow(e.hours, 24, 30);
    RoundDivBelow(e.minutes, 60, 708);
    RoundDivBelow(e.seconds, 60, 42450);
    RoundDivBelow(diffMs, 1000, 2546970);
    RoundDivBelow(e.hours, 24, 365);
    RoundDivBelow(e.minutes, 60, 8748);
    RoundDivBelow(e.seconds, 60, 524850);
    RoundDivBelow(diffMs, 1000, 31490970);
  }

  /** The chosen unit is the one the thresholds give. */
  lemma SelectMatchesThresholds(diffMs: int)
    ensures Select(diffMs).unit == UnitByThreshold(diffMs)
  {
    SelectByGuards(diffMs);
    GuardThresholds(diffMs);
  }

  /** Every difference below 59.5 s lands in the seconds bucket, and a
      non-positive one (the target is now or in the future) passes a
      non-negative value to the formatter. */
  lemma SecondsBucket(diffMs: int)
    ensures diffMs < 59_500 ==> Select(diffMs) == Candidate(true, Seconds, -RoundDiv(diffMs, 1000))
    ensures diffMs <= 0 ==> Select(diffMs).value >= 0
  {
    SelectByGuards(diffMs);
    GuardThresholds(diffMs);
    if diffMs <= 0 {
      RoundDivMonotone(diffMs, 0, 1000);
    }
  }

  /** The value handed to the formatter is the negated magnitude, and the
      magnitude of each bucket lies in its range: minutes 1..59, hours
      1..23, days 1..29, months 1..12 (guarded by days < 365, not by
      months), years at least 1. */
  lemma SelectedMagnitude(diffMs: int)
    ensures var b := Select(diffMs); var e := Derive(diffMs);
      match b.unit
      case Seconds => b.value == -e.seconds && e.seconds < 60
      case Minutes => b.value == -e.minutes && 1 <= e.minutes <= 59
      case Hours => b.value == -e.hours && 1 <= e.hours <= 23
      case Days => b.value == -e.days && 1 <= e.days <= 29
      case Months => b.value == -e.months && 1 <= e.months <= 12
      case Years => b.value == -e.years && e.years >= 1
  {
    var e := Derive(diffMs);
    SelectByGuards(diffMs);
    RoundDivBelow(e.seconds, 60, 1);
    RoundDivBelow(e.minutes, 60, 1);
    RoundDivBelow(e.hours, 24, 1);
    RoundDivBelow(e.days, 30, 1);
    RoundDivBelow(e.days, 365, 1);
    if 30 <= e.days < 365 {
      RoundDivMonotone(e.days, 364, 30);
    }
  }

  // Worked examples. Each states the derived amounts and the bucket; by
  // SelectMatchesThresholds and SelectedMagnitude the value handed to the
  // formatter is the negated amount of that bucket.

  /** Ninety seconds ago reads as two minutes ago: 90 / 60 = 1.5 rounds up. */
  lemma NinetySecondsIsTwoMinutes()
    ensures Derive(90_000) == Elapsed(90, 2, 0, 0, 0, 0)
    ensures UnitByThreshold(90_000) == Minutes
  {
  }

  /** Rounding compounds: 5370 s is 1.49 hours, but it rounds to 89.5 -> 90
      minutes and then to 2 hours. */
  lemma RoundingCompounds()
    ensures RoundDiv(5_370, 3_600) == 1
    ensures Derive(5_370_000) == Elapsed(5_370, 90, 2, 0, 0, 0)
    ensures UnitByThreshold(5_370_000) == Hours
  {
  }

  /** Years come from days: 545 days is 18 months, which would round to 2
      years, but 545 / 365 rounds to 1. */
  lemma YearsRoundedFromDays()
    ensures Derive(545 * 86_400_000) == Elapsed(47_088_000, 784_800, 13_080, 545, 18, 1)
    ensures RoundDiv(18, 12) == 2
    ensures UnitByThreshold(545 * 86_400_000) == Years
  {
  }
}
