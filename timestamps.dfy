/**
 * The two timestamp encoders of the frontend: `format_time` (`MM:SS.mmm`,
 * used by the bracketed subtitle listing) and `format_srt_time`
 * (`HH:MM:SS,mmm`, the SubRip convention).  A time is a non-negative count
 * of milliseconds; `ExactSecondsCompact` and `ExactSecondsSrt` show that
 * Python's formulas on an exact (real) number of seconds `s` give the same
 * fields as the integer formulas on `floor(1000 * s)` milliseconds.
 */
module Timestamps {

  import opened Wrappers
  import opened Text

  const MillisPerSecond: nat := 1000
  const MillisPerMinute: nat := 60 * 1000
  const MillisPerHour: nat := 60 * 60 * 1000

  /** The fields of a rendered timestamp. */
  datatype Clock = Clock(hours: nat, minutes: nat, seconds: nat, millis: nat)

  function TotalMillis(c: Clock): nat {
    c.hours * MillisPerHour + c.minutes * MillisPerMinute + c.seconds * MillisPerSecond + c.millis
  }

  /** The fields `format_time` renders: whole minutes (unbounded), whole
      seconds within the minute and truncated milliseconds. */
  function CompactClock(t: nat): (c: Clock)
    ensures c.hours == 0 && c.seconds < 60 && c.millis < 1000
    ensures TotalMillis(c) == t
  {
    MinuteSplit(t);
    Clock(0, t / MillisPerMinute, (t % MillisPerMinute) / MillisPerSecond, t % MillisPerSecond)
  }

  /** The fields `format_srt_time` renders: whole hours (unbounded), minutes
      within the hour, seconds within the minute, truncated milliseconds. */
  function SrtClock(t: nat): (c: Clock)
    ensures c.minutes < 60 && c.seconds < 60 && c.millis < 1000
    ensures TotalMillis(c) == t
  {
    HourSplit(t);
    MinuteSplit(t);
    Clock(t / MillisPerHour, (t % MillisPerHour) / MillisPerMinute,
          (t % MillisPerMinute) / MillisPerSecond, t % MillisPerSecond)
  }

  /** Whole minutes, whole seconds within the minute and the remaining
      milliseconds add back up to `t`. */
  lemma MinuteSplit(t: nat)
    ensures (t % MillisPerMinute) / MillisPerSecond < 60
    ensures t == (t / MillisPerMinute) * MillisPerMinute + ((t % MillisPerMinute) / MillisPerSecond) * MillisPerSecond + t % MillisPerSecond
  {
    var q1, r1 := t / MillisPerMinute, t % MillisPerMinute;
    var q2, r2 := r1 / MillisPerSecond, r1 % MillisPerSecond;
    assert r1 == MillisPerSecond * q2 + r2 && r1 < 60 * MillisPerSecond;
    assert q2 < 60;
    assert t == MillisPerSecond * (60 * q1 + q2) + r2;
    assert t % MillisPerSecond == r2;
  }

  /** Splitting off whole hours first and whole minutes next leaves the same
      remainder as splitting off whole minutes directly. */
  lemma HourSplit(t: nat)
    ensures t == (t / MillisPerHour) * MillisPerHour + ((t % MillisPerHour) / MillisPerMinute) * MillisPerMinute + t % MillisPerMinute
  {
    var q1, r1 := t / MillisPerHour, t % MillisPerHour;
    var q2, r2 := r1 / MillisPerMinute, r1 % MillisPerMinute;
    assert t == MillisPerMinute * (60 * q1 + q2) + r2;
    assert t / MillisPerMinute == 60 * q1 + q2;
    assert t % MillisPerMinute == r2;
  }

  /** The layout of `MM:SS.mmm`: at least two digits, a colon, two digits, a
      full stop and three digits. */
  predicate IsCompactLayout(s: string) {
    && |s| >= 9
    && AllDigits(s[..|s| - 7]) && s[|s| - 7] == ':'
    && AllDigits(s[|s| - 6..|s| - 4]) && s[|s| - 4] == '.'
    && AllDigits(s[|s| - 3..])
  }

  /** The layout of `HH:MM:SS,mmm`: at least two digits, a colon, two digits,
      a colon, two digits, a comma and three digits. */
  predicate IsSrtLayout(s: string) {
    && |s| >= 12
    && AllDigits(s[..|s| - 10]) && s[|s| - 10] == ':'
    && AllDigits(s[|s| - 9..|s| - 7]) && s[|s| - 7] == ':'
    && AllDigits(s[|s| - 6..|s| - 4]) && s[|s| - 4] == ','
    && AllDigits(s[|s| - 3..])
  }

  /** `format_time`: `MM:SS.mmm`, where the minutes widen past two digits
      instead of rolling over into hours. */
  function FormatTime(t: nat): string
  {
    var c := CompactClock(t);
    PadNat(c.minutes, 2) + ":" + PadNat(c.seconds, 2) + "." + PadNat(c.millis, 3)
  }

  /** `format_srt_time`: `HH:MM:SS,mmm` with a comma before the milliseconds. */
  function FormatSrtTime(t: nat): string
  {
    var c := SrtClock(t);
    PadNat(c.hours, 2) + ":" + PadNat(c.minutes, 2) + ":" + PadNat(c.seconds, 2) + "," + PadNat(c.millis, 3)
  }

  /** Where the fields sit in `MM:SS.mmm`, whatever the width of `MM`. */
  lemma CompactParts(mm: string, ss: string, ms: string)
    requires |ss| == 2 && |ms| == 3
    ensures var s := mm + ":" + ss + "." + ms;
            && |s| == |mm| + 7
            && s[..|s| - 7] == mm && s[|s| - 7] == ':'
            && s[|s| - 6..|s| - 4] == ss && s[|s| - 4] == '.'
            && s[|s| - 3..] == ms
  {
  }

  /** Where the fields sit in `HH:MM:SS,mmm`, whatever the width of `HH`. */
  lemma SrtParts(hh: string, mm: string, ss: string, ms: string)
    requires |mm| == 2 && |ss| == 2 && |ms| == 3
    ensures var s := hh + ":" + mm + ":" + ss + "," + ms;
            && |s| == |hh| + 10
            && s[..|s| - 10] == hh && s[|s| - 10] == ':'
            && s[|s| - 9..|s| - 7] == mm && s[|s| - 7] == ':'
            && s[|s| - 6..|s| - 4] == ss && s[|s| - 4] == ','
            && s[|s| - 3..] == ms
  {
  }

  /** `format_time` always has the `MM:SS.mmm` layout, and exactly nine
      characters below 100 minutes; from there the minutes field widens to
      the plain digits of the minute count, with no leading zero. */
  lemma FormatTimeLayout(t: nat)
    ensures IsCompactLayout(FormatTime(t))
    ensures |FormatTime(t)| == 9 <==> t < 100 * MillisPerMinute
    ensures t >= 100 * MillisPerMinute ==>
              FormatTime(t)[..|FormatTime(t)| - 7] == NatToString(t / MillisPerMinute)
  {
    var c := CompactClock(t);
    var mm, ss, ms := PadNat(c.minutes, 2), PadNat(c.seconds, 2), PadNat(c.millis, 3);
    PadNatSpec(c.minutes, 2);
    PadNatSpec(c.seconds, 2);
    PadNatSpec(c.millis, 3);
    assert Pow10(2) == 100 && Pow10(3) == 1000;
    CompactParts(mm, ss, ms);
    assert c.minutes < 100 <==> t < 100 * MillisPerMinute by {
      QuotientBelow(t, MillisPerMinute, 100);
    }
    NatToStringLength(c.minutes, 2);
  }

  /** A quotient stays below `k` exactly when the dividend stays below `k` units. */
  lemma QuotientBelow(t: nat, u: nat, k: nat)
    requires u >= 1
    ensures t / u < k <==> t < k * u
  {
    var q := t / u;
    assert t == q * u + t % u;
    if q < k {
      assert (q + 1) * u <= k * u;
    } else {
      assert k * u <= q * u;
    }
  }

  /** `format_srt_time` always has the `HH:MM:SS,mmm` layout, and exactly
      twelve characters below 100 hours; from there the hours field widens
      to the plain digits of the hour count. */
  lemma FormatSrtTimeLayout(t: nat)
    ensures IsSrtLayout(FormatSrtTime(t))
    ensures |FormatSrtTime(t)| == 12 <==> t < 100 * MillisPerHour
    ensures t >= 100 * MillisPerHour ==>
              FormatSrtTime(t)[..|FormatSrtTime(t)| - 10] == NatToString(t / MillisPerHour)
  {
    var c := SrtClock(t);
    var hh, mm, ss, ms := PadNat(c.hours, 2), PadNat(c.minutes, 2), PadNat(c.seconds, 2), PadNat(c.millis, 3);
    PadNatSpec(c.hours, 2);
    PadNatSpec(c.minutes, 2);
    PadNatSpec(c.seconds, 2);
    PadNatSpec(c.millis, 3);
    assert Pow10(2) == 100 && Pow10(3) == 1000;
    SrtParts(hh, mm, ss, ms);
    assert c.hours < 100 <==> t < 100 * MillisPerHour by {
      QuotientBelow(t, MillisPerHour, 100);
    }
    NatToStringLength(c.hours, 2);
  }

  /** One hour renders as sixty minutes: `format_time` has no hours field. */
  lemma FormatTimeOneHour()
    ensures FormatTime(60 * MillisPerMinute) == "60:00.000"
  {
    assert CompactClock(60 * MillisPerMinute) == Clock(0, 60, 0, 0);
    assert NatToString(60) == "60" && NatToString(0) == "0";
    assert ZeroPad("0", 3) == ZeroPad("00", 3) == "000";
  }

  /** At 100 minutes the minutes field grows to three digits. */
  lemma FormatTimeHundredMinutes()
    ensures FormatTime(100 * MillisPerMinute) == "100:00.000"
  {
    assert CompactClock(100 * MillisPerMinute) == Clock(0, 100, 0, 0);
    assert NatToString(10) == "10";
    assert NatToString(100) == "100" && NatToString(0) == "0";
    assert ZeroPad("0", 3) == ZeroPad("00", 3) == "000";
  }

  /** 1 h 2 min 3.004 s in SubRip form. */
  lemma FormatSrtTimeExample()
    ensures FormatSrtTime(3723004) == "01:02:03,004"
  {
    assert SrtClock(3723004) == Clock(1, 2, 3, 4);
    assert NatToString(1) == "1" && NatToString(2) == "2" && NatToString(3) == "3" && NatToString(4) == "4";
    assert ZeroPad("4", 3) == ZeroPad("04", 3) == "004";
  }

  /** The milliseconds denoted by the digit fields of `MM:SS.mmm`, when the
      seconds are below 60. */
  function ReadCompact(mm: string, ss: string, ms: string): Option<nat>
    requires AllDigits(mm) && AllDigits(ss) && AllDigits(ms)
  {
    if DigitsValue(ss) < 60 then
      Some(DigitsValue(mm) * MillisPerMinute + DigitsValue(ss) * MillisPerSecond + DigitsValue(ms))
    else None
  }

  /** The milliseconds denoted by the digit fields of `HH:MM:SS,mmm`, when
      the minutes and seconds are below 60. */
  function ReadSrt(hh: string, mm: string, ss: string, ms: string): Option<nat>
    requires AllDigits(hh) && AllDigits(mm) && AllDigits(ss) && AllDigits(ms)
  {
    if DigitsValue(mm) < 60 && DigitsValue(ss) < 60 then
      Some(DigitsValue(hh) * MillisPerHour + DigitsValue(mm) * MillisPerMinute
           + DigitsValue(ss) * MillisPerSecond + DigitsValue(ms))
    else None
  }

  /** Reads a `MM:SS.mmm` timestamp back into milliseconds. */
  function ParseTime(s: string): Option<nat>
  {
    if IsCompactLayout(s) then ReadCompact(s[..|s| - 7], s[|s| - 6..|s| - 4], s[|s| - 3..])
    else None
  }

  /** Reads an `HH:MM:SS,mmm` timestamp back into milliseconds. */
  function ParseSrtTime(s: string): Option<nat>
  {
    if IsSrtLayout(s) then ReadSrt(s[..|s| - 10], s[|s| - 9..|s| - 7], s[|s| - 6..|s| - 4], s[|s| - 3..])
    else None
  }

  /** A `MM:SS.mmm` string assembled from digit fields reads as those fields. */
  lemma ParseTimeOf(mm: string, ss: string, ms: string)
    requires |mm| >= 2 && |ss| == 2 && |ms| == 3
    requires AllDigits(mm) && AllDigits(ss) && AllDigits(ms)
    ensures ParseTime(mm + ":" + ss + "." + ms) == ReadCompact(mm, ss, ms)
  {
    CompactParts(mm, ss, ms);
  }

  /** An `HH:MM:SS,mmm` string assembled from digit fields reads as those fields. */
  lemma ParseSrtTimeOf(hh: string, mm: string, ss: string, ms: string)
    requires |hh| >= 2 && |mm| == 2 && |ss| == 2 && |ms| == 3
    requires AllDigits(hh) && AllDigits(mm) && AllDigits(ss) && AllDigits(ms)
    ensures ParseSrtTime(hh + ":" + mm + ":" + ss + "," + ms) == ReadSrt(hh, mm, ss, ms)
  {
    SrtParts(hh, mm, ss, ms);
  }

  /** The zero-padded fields of `MM:SS.mmm` read back as the numbers padded. */
  lemma ReadCompactPadded(m: nat, sec: nat, ms: nat)
    requires sec < 60 && ms < 1000
    ensures |PadNat(m, 2)| >= 2 && |PadNat(sec, 2)| == 2 && |PadNat(ms, 3)| == 3
    ensures AllDigits(PadNat(m, 2)) && AllDigits(PadNat(sec, 2)) && AllDigits(PadNat(ms, 3))
    ensures ReadCompact(PadNat(m, 2), PadNat(sec, 2), PadNat(ms, 3))
         == Some(m * MillisPerMinute + sec * MillisPerSecond + ms)
  {
    PadNatSpec(m, 2);
    PadNatSpec(sec, 2);
    PadNatSpec(ms, 3);
    assert Pow10(2) == 100 && Pow10(3) == 1000;
  }

  /** The zero-padded fields of `HH:MM:SS,mmm` read back as the numbers padded. */
  lemma ReadSrtPadded(h: nat, m: nat, sec: nat, ms: nat)
    requires m < 60 && sec < 60 && ms < 1000
    ensures |PadNat(h, 2)| >= 2 && |PadNat(m, 2)| == 2 && |PadNat(sec, 2)| == 2 && |PadNat(ms, 3)| == 3
    ensures AllDigits(PadNat(h, 2)) && AllDigits(PadNat(m, 2)) && AllDigits(PadNat(sec, 2)) && AllDigits(PadNat(ms, 3))
    ensures ReadSrt(PadNat(h, 2), PadNat(m, 2), PadNat(sec, 2), PadNat(ms, 3))
         == Some(h * MillisPerHour + m * MillisPerMinute + sec * MillisPerSecond + ms)
  {
    PadNatSpec(h, 2);
    PadNatSpec(m, 2);
    PadNatSpec(sec, 2);
    PadNatSpec(ms, 3);
    assert Pow10(2) == 100 && Pow10(3) == 1000;
  }

  /** `format_time` loses nothing at millisecond resolution. */
  lemma FormatTimeRoundTrip(t: nat)
    ensures ParseTime(FormatTime(t)) == Some(t)
  {
    var c := CompactClock(t);
    ReadCompactPadded(c.minutes, c.seconds, c.millis);
    ParseTimeOf(PadNat(c.minutes, 2), PadNat(c.seconds, 2), PadNat(c.millis, 3));
  }

  /** `format_srt_time` loses nothing at millisecond resolution. */
  lemma FormatSrtTimeRoundTrip(t: nat)
    ensures ParseSrtTime(FormatSrtTime(t)) == Some(t)
  {
    var c := SrtClock(t);
    ReadSrtPadded(c.hours, c.minutes, c.seconds, c.millis);
    ParseSrtTimeOf(PadNat(c.hours, 2), PadNat(c.minutes, 2), PadNat(c.seconds, 2), PadNat(c.millis, 3));
  }

  // ---------------------------------------------------------------------
  // Exact seconds
  // ---------------------------------------------------------------------

  /** Python's `x // y` on non-negative reals. */
  ghost function FloorDiv(x: real, y: real): int
    requires y > 0.0
  {
    (x / y).Floor
  }

  /** Python's `x % y` on non-negative reals: `x - y * (x // y)`. */
  ghost function Mod(x: real, y: real): real
    requires y > 0.0
  {
    x - y * (FloorDiv(x, y) as real)
  }

  lemma FloorIs(x: real, k: int)
    requires k as real <= x < (k + 1) as real
    ensures x.Floor == k
  {
  }

  /** If `t` is the whole number of milliseconds in `x` milliseconds, then
      whole units of `u` milliseconds and the remainder agree between the two. */
  lemma UnitsOfMillis(x: real, t: int, u: int)
    requires u >= 1 && t >= 0 && t as real <= x < (t + 1) as real
    ensures ((t / u) * u) as real <= x < ((t / u) * u + u) as real
    ensures (t % u) as real <= x - ((t / u) * u) as real < (t % u + 1) as real
  {
    assert t == (t / u) * u + t % u;
  }

  /** Python's `s // y` and `s % y` for a whole number `y` of seconds
      (1, 60 or 3600), when `s` holds `t` whole milliseconds: the quotient is
      `t / u` for `u = 1000 * y` and the remainder holds `t % u` whole
      milliseconds. */
  lemma DivideSeconds(s: real, t: int, y: real, u: int)
    requires (y == 1.0 && u == 1000) || (y == 60.0 && u == 60000) || (y == 3600.0 && u == 3600000)
    requires t >= 0 && t as real <= s * 1000.0 < (t + 1) as real
    ensures FloorDiv(s, y) == t / u
    ensures (t % u) as real <= Mod(s, y) * 1000.0 < (t % u + 1) as real
  {
    UnitsOfMillis(s * 1000.0, t, u);
    var q := t / u;
    if y == 1.0 {
      FloorIs(s / 1.0, q);
    } else if y == 60.0 {
      FloorIs(s / 60.0, q);
    } else {
      FloorIs(s / 3600.0, q);
    }
  }

  /** Whole seconds and truncated milliseconds of the part of `s` within
      its minute, when `s` holds `t` whole milliseconds. */
  lemma WithinMinute(s: real, t: nat)
    requires t as real <= s * 1000.0 < (t + 1) as real
    ensures Mod(s, 60.0).Floor == (t % MillisPerMinute) / MillisPerSecond
    ensures (Mod(Mod(s, 60.0), 1.0) * 1000.0).Floor == t % MillisPerSecond
  {
    DivideSeconds(s, t, 60.0, 60000);
    var remaining := Mod(s, 60.0);
    var r := t % 60000;
    DivideSeconds(remaining, r, 1.0, 1000);
    assert remaining / 1.0 == remaining;
    FloorIs(Mod(remaining, 1.0) * 1000.0, r % 1000);
    MillisWithinMinute(t);
  }

  lemma MillisWithinMinute(t: nat)
    ensures (t % 60000) % 1000 == t % 1000
  {
    var q, r := t / 60000, t % 60000;
    assert t == 1000 * (60 * q + r / 1000) + r % 1000;
  }

  /**
   * On an exact number `s >= 0` of seconds, the formulas of `format_time`
   * (`//`, `%`, then `int(...)`, which truncates, on reals) yield exactly
   * the fields of `CompactClock` at `floor(1000 * s)` milliseconds:
   * milliseconds are truncated, never rounded.
   */
  lemma ExactSecondsCompact(s: real)
    requires s >= 0.0
    ensures (s * 1000.0).Floor >= 0
    ensures var t: nat := (s * 1000.0).Floor;
            var remaining := Mod(s, 60.0);
            CompactClock(t) == Clock(0, FloorDiv(s, 60.0), remaining.Floor, (Mod(remaining, 1.0) * 1000.0).Floor)
  {
    var t := (s * 1000.0).Floor;
    DivideSeconds(s, t, 60.0, 60000);
    WithinMinute(s, t);
  }

  /** The same for `format_srt_time` and `SrtClock`; its minutes come from
      the part of `s` within its hour. */
  lemma ExactSecondsSrt(s: real)
    requires s >= 0.0
    ensures (s * 1000.0).Floor >= 0
    ensures var t: nat := (s * 1000.0).Floor;
            var remaining := Mod(s, 60.0);
            SrtClock(t) == Clock(FloorDiv(s, 3600.0), FloorDiv(Mod(s, 3600.0), 60.0),
                                 remaining.Floor, (Mod(remaining, 1.0) * 1000.0).Floor)
  {
    var t := (s * 1000.0).Floor;
    WithinMinute(s, t);
    DivideSeconds(s, t, 3600.0, 3600000);
    DivideSeconds(Mod(s, 3600.0), t % 3600000, 60.0, 60000);
  }
}
