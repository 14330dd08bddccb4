/** The pure arithmetic of the transaction layer
    (org.parking.model.TransactionDAO): the parking tariff, the "Hh Mm"
    duration text, the daily average, and the analytics re-parse of that
    text. Minutes are whole numbers, so the source's `Math.ceil(m / 60.0)`
    is an exact integer ceiling. */
module Tariff {
  import opened Base
  import opened JavaText

  const RATE_PER_HOUR: int := 50
  const MINIMUM_CHARGE: int := 25

  /** `Math.max(1, Math.ceil(minutes / 60.0))`: started hours, at least one. */
  function BilledHours(minutes: int): (h: int)
    ensures h >= 1
    ensures minutes <= 60 * h
    ensures h == 1 || 60 * (h - 1) < minutes
  {
    Max(1, (minutes + 59) / 60)
  }

  /** `calculateCost`: 50 per started hour, `Math.max`ed with a minimum of 25.
      The result is the least multiple of 50, and at least 50, whose hours
      cover the stay. */
  function CalculateCost(minutes: int): (cost: int)
    ensures cost >= RATE_PER_HOUR && cost % RATE_PER_HOUR == 0
    ensures minutes <= 60 * (cost / RATE_PER_HOUR)
    ensures cost == RATE_PER_HOUR || 60 * (cost / RATE_PER_HOUR - 1) < minutes
  {
    Max(MINIMUM_CHARGE, BilledHours(minutes) * RATE_PER_HOUR)
  }

  /** A longer stay never costs less. */
  lemma CostMonotone(a: int, b: int)
    requires a <= b
    ensures CalculateCost(a) <= CalculateCost(b)
  {
  }

  /** The 25 minimum never binds: one started hour already costs 50. */
  lemma MinimumChargeNeverApplies(minutes: int)
    ensures CalculateCost(minutes) == BilledHours(minutes) * RATE_PER_HOUR
    ensures CalculateCost(minutes) > MINIMUM_CHARGE
  {
  }

  /** `formatDuration`: `hours + "h " + mins + "m"` with Java's truncating
      `/ 60` and `% 60` on a `long`. */
  function FormatDuration(minutes: int): string {
    IntToString(Quot(minutes, 60)) + "h " + IntToString(Rem(minutes, 60)) + "m"
  }

  /** Reads "Hh Mm" back into its two numbers; the decoder that
      `FormatDuration` is proved against. */
  function ParseDuration(s: string): Option<(int, int)> {
    var parts := SplitOn(s, ' ');
    if |parts| != 2 then None
    else
      var a := parts[0];
      var b := parts[1];
      if |a| < 1 || a[|a| - 1] != 'h' || |b| < 1 || b[|b| - 1] != 'm' then None
      else
        match (ParseDecimal(a[..|a| - 1]), ParseDecimal(b[..|b| - 1]))
        case (Some(h), Some(m)) => Some((h, m))
        case _ => None
  }

  /** The duration text loses nothing: it decodes to hours and minutes that
      recombine to the input, with the minutes below 60 in magnitude and of
      the input's sign. */
  lemma FormatDurationRoundTrip(minutes: int)
    ensures ParseDuration(FormatDuration(minutes)).Some?
    ensures var (h, m) := ParseDuration(FormatDuration(minutes)).value;
      h * 60 + m == minutes &&
      (minutes >= 0 ==> 0 <= m < 60 && h >= 0) &&
      (minutes < 0 ==> -60 < m <= 0 && h <= 0)
  {
    var hs := IntToString(Quot(minutes, 60));
    var ms := IntToString(Rem(minutes, 60));
    var a := hs + "h";
    var b := ms + "m";
    IntToStringChars(Quot(minutes, 60), ' ');
    IntToStringChars(Rem(minutes, 60), ' ');
    assert FormatDuration(minutes) == Join([a, b], ' ');
    SplitJoin([a, b], ' ');
    assert a[..|a| - 1] == hs;
    assert b[..|b| - 1] == ms;
    ParseDecimalToString(Quot(minutes, 60));
    ParseDecimalToString(Rem(minutes, 60));
  }

  /** Two different durations never print the same. */
  lemma FormatDurationInjective(x: int, y: int)
    requires FormatDuration(x) == FormatDuration(y)
    ensures x == y
  {
    FormatDurationRoundTrip(x);
    FormatDurationRoundTrip(y);
  }

  /** Every duration text decodes. */
  lemma DurationParses(minutes: int)
    ensures ParseDuration(FormatDuration(minutes)).Some?
  {
    FormatDurationRoundTrip(minutes);
  }

  /** The day's average in `getTodayStatistics`: the mean of whole minutes
      with Java's truncating `long` division, or "0h 0m" when nothing has
      completed. The text decodes to the average: the largest whole number
      of minutes that `completed` sessions could each have stayed within the
      total (the smallest, for a negative total). */
  function AverageDuration(totalMinutes: int, completed: int): (r: string)
    ensures ParseDuration(r).Some?
    ensures completed > 0 ==> var (h, m) := ParseDuration(r).value;
      h * 60 + m == Quot(totalMinutes, completed)
    ensures completed <= 0 ==> r == "0h 0m" && ParseDuration(r) == Some((0, 0))
  {
    if completed > 0 then
      var avg := Quot(totalMinutes, completed);
      FormatDurationRoundTrip(avg);
      FormatDuration(avg)
    else
      ZeroDuration();
      "0h 0m"
  }

  /** No time at all prints as "0h 0m" and decodes to zero hours, zero
      minutes. */
  lemma ZeroDuration()
    ensures FormatDuration(0) == "0h 0m"
    ensures ParseDuration("0h 0m") == Some((0, 0))
  {
    assert Quot(0, 60) == 0 && Rem(0, 60) == 0;
    assert IntToString(0) == "0";
    FormatDurationRoundTrip(0);
  }

  /** The average text decodes to the whole minutes each of `completed`
      sessions could have stayed within the total: `completed` times it
      fits under a non-negative total, one more does not. */
  lemma AverageDurationBracket(totalMinutes: int, completed: int)
    requires completed > 0
    ensures var (h, m) := ParseDuration(AverageDuration(totalMinutes, completed)).value;
      var avg := h * 60 + m;
      && (totalMinutes >= 0 ==> completed * avg <= totalMinutes < completed * avg + completed)
      && (totalMinutes < 0 ==> completed * avg - completed < totalMinutes <= completed * avg)
  {
    var (h, m) := ParseDuration(AverageDuration(totalMinutes, completed)).value;
    assert h * 60 + m == Quot(totalMinutes, completed);
    QuotBetween(totalMinutes, completed);
  }

  /** The truncated quotient, as a bracket of multiples of the divisor. */
  lemma QuotBetween(a: int, d: int)
    requires d > 0
    ensures a >= 0 ==> d * Quot(a, d) <= a < d * Quot(a, d) + d
    ensures a < 0 ==> d * Quot(a, d) - d < a <= d * Quot(a, d)
  {
    var q := Quot(a, d);
    assert d * q == q * d;
  }

  /** The analytics endpoint's re-parse: `replace("h", "")`,
      `replace("m", "")`, `trim()`, then the first piece of `split(" ")`.
      `None` stands for the ArrayIndexOutOfBounds an empty split would raise. */
  function AnalyticsHours(s: string): Option<string> {
    var t := Trim(RemoveAll(RemoveAll(s, "h"), "m"));
    var parts := JavaSplit(t, ' ');
    if parts == [] then None else Some(parts[0])
  }

  /** The analytics figure is exactly the hours component of the average,
      and parses back to it. */
  lemma AnalyticsHoursOfAverage(totalMinutes: int, completed: int)
    ensures var avg := if completed > 0 then Quot(totalMinutes, completed) else 0;
      AnalyticsHours(AverageDuration(totalMinutes, completed)) == Some(IntToString(Quot(avg, 60))) &&
      ParseDecimal(AnalyticsHours(AverageDuration(totalMinutes, completed)).value) == Some(Quot(avg, 60))
  {
    var avg := if completed > 0 then Quot(totalMinutes, completed) else 0;
    if completed <= 0 {
      ZeroDuration();
    }
    AnalyticsHoursOfFormat(avg);
    ParseDecimalToString(Quot(avg, 60));
  }

  /** Dropping the unit letters from "<hs>h <ms>m" leaves "<hs> <ms>" when
      neither number text holds a letter. */
  lemma StripUnits(hs: string, ms: string)
    requires 'h' !in hs && 'm' !in hs && 'h' !in ms && 'm' !in ms
    ensures RemoveAll(RemoveAll(hs + "h " + ms + "m", "h"), "m") == hs + " " + ms
  {
    var y := " " + ms + "m";
    assert hs + "h " + ms + "m" == hs + ['h'] + y;
    RemoveSole(hs, y, 'h');
    var x := hs + " " + ms;
    assert hs + y == x + ['m'] + [];
    RemoveSole(x, [], 'm');
    assert x + [] == x;
  }

  /** The analytics re-parse of "<hs>h <ms>m" yields `hs` when both number
      texts are free of letters and spaces and are already trimmed. */
  lemma AnalyticsHoursOfParts(hs: string, ms: string)
    requires 'h' !in hs && 'm' !in hs && 'h' !in ms && 'm' !in ms
    requires ' ' !in hs && ' ' !in ms
    requires Trimmed(hs) && Trimmed(ms) && hs != [] && ms != []
    ensures AnalyticsHours(hs + "h " + ms + "m") == Some(hs)
  {
    StripUnits(hs, ms);
    var s2 := hs + " " + ms;
    assert Trimmed(s2) by {
      assert s2[0] == hs[0];
      assert s2[|s2| - 1] == ms[|ms| - 1];
    }
    assert s2 == Join([hs, ms], ' ');
    SplitJoin([hs, ms], ' ');
    assert ' ' in s2 by {
      assert s2[|hs|] == ' ';
    }
  }

  lemma AnalyticsHoursOfFormat(minutes: int)
    ensures AnalyticsHours(FormatDuration(minutes)) == Some(IntToString(Quot(minutes, 60)))
  {
    var hs := IntToString(Quot(minutes, 60));
    var ms := IntToString(Rem(minutes, 60));
    IntToStringChars(Quot(minutes, 60), 'h');
    IntToStringChars(Rem(minutes, 60), 'h');
    IntToStringChars(Quot(minutes, 60), 'm');
    IntToStringChars(Rem(minutes, 60), 'm');
    IntToStringChars(Quot(minutes, 60), ' ');
    IntToStringChars(Rem(minutes, 60), ' ');
    IntToStringTrimmed(Quot(minutes, 60));
    IntToStringTrimmed(Rem(minutes, 60));
    AnalyticsHoursOfParts(hs, ms);
  }
}
