/**
 * The two evaluators side by side. `lib/isOpenNow.ts` treats a window as
 * half-open and equal times as closed; `lib/openNow.ts` includes the
 * closing instant and treats equal times as a full day. For the same
 * well-formed hours every day they agree everywhere except at exactly
 * those points.
 */
module Evaluators {
  import opened Optional
  import opened Text
  import opened JsNumber
  import opened Clock
  import DailyHours
  import WeeklyHours

  /** A non-empty time text that reads as a minute of one day. */
  predicate InDay(text: string) {
    && |text| > 0
    && DailyHours.ClockMinutes(text).Fin?
    && 0 <= DailyHours.ClockMinutes(text).v < MinutesPerDay
  }

  /** `now` is the first millisecond of its minute. */
  predicate OnTheMinute(now: Instant) {
    now.ms == MinuteOfDay(now) * MinuteMs
  }

  /** Where both parsers see numbers, `setHours(h || 0, m || 0)` lands on `h * 60 + m`. */
  lemma OffsetAgrees(text: string)
    requires DailyHours.ClockMinutes(text).Fin?
    ensures WeeklyHours.OffsetMinutes(text) == DailyHours.ClockMinutes(text).v
  {
    var parts := Split(text, ':');
    DailyHours.ClockMinutesOfParts(text, parts);
  }

  /** A text that starts with neither a digit nor a sign does not read as a time. */
  lemma NotATime(t: string)
    requires |t| > 0 && ':' !in t && SpaceFree(t)
    requires !IsDigit(t[0]) && t[0] != '+' && t[0] != '-'
    ensures DailyHours.ClockMinutes(t).NaN?
  {
    SplitWithoutSeparator(t, ':');
    DailyHours.ClockMinutesOfParts(t, [t]);
    TrimNoSpace(t);
  }

  lemma ClosedIsNotATime()
    ensures DailyHours.ClockMinutes(WeeklyHours.ClosedText).NaN?
  {
    NotATime(WeeklyHours.ClosedText);
  }

  lemma LastMinuteIs1439()
    ensures DailyHours.ClockMinutes(WeeklyHours.LastMinuteText) == Fin(1439)
  {
    DailyHours.PaddedClockText(23, 59);
    Padded2359();
  }

  /** The arithmetic behind `DailyVersusWeekly`, with `lm` for a close of "23:59". */
  lemma WindowArithmetic(s: int, e: int, cur: int, ms: int, lm: bool)
    requires 0 <= s < MinutesPerDay && 0 <= e < MinutesPerDay && 0 <= cur < MinutesPerDay
    requires cur * MinuteMs <= ms < cur * MinuteMs + MinuteMs
    requires lm ==> e == 1439
    ensures var c0 := if lm then DayMs - 1 else e * MinuteMs;
            var tc := if c0 <= s * MinuteMs then c0 + DayMs else c0;
            var yc := if c0 - DayMs <= s * MinuteMs - DayMs then c0 else c0 - DayMs;
            ((s * MinuteMs <= ms <= tc) || (s * MinuteMs - DayMs <= ms <= yc))
            <==> || (if e < s then cur >= s || cur < e else s <= cur < e)
                 || (cur == e && (ms == cur * MinuteMs || lm))
                 || (s == e && !lm)
  {
  }

  /** The "HH:MM" text of minute `e` reads back as `e`. */
  lemma ClockTextOfMinute(text: string, e: int)
    requires 0 <= e < MinutesPerDay && text == Pad2(e / 60) + ":" + Pad2(e % 60)
    ensures DailyHours.ClockMinutes(text) == Fin(e)
  {
    DailyHours.PaddedClockText(e / 60, e % 60);
  }

  /**
   * Where the two parsers part ways: a minute part that is not a number
   * makes the daily reading NaN, so the daily evaluator is closed whatever
   * the closing time, while `m || 0` makes the weekly reading the bare hour.
   */
  lemma UnparsableMinute(h: string, m: string, close: Option<string>, now: Instant)
    requires ':' !in h && ':' !in m
    requires ParseNumber(h).Fin? && ParseNumber(m).NaN?
    ensures DailyHours.ClockMinutes(h + ":" + m).NaN?
    ensures WeeklyHours.OffsetMinutes(h + ":" + m) == ParseNumber(h).v * 60
    ensures !DailyHours.IsOpenNow(Some(h + ":" + m), close, now)
  {
    var text := h + ":" + m;
    assert Split(text, ':') == [h, m] by {
      assert text == h + [':'] + m;
      SplitWithoutSeparator(m, ':');
      SplitAfterPart(h, ':', m);
    }
    DailyHours.ClockMinutesOfParts(text, [h, m]);
    assert WeeklyHours.OrZero(WeeklyHours.Part([h, m], 1)) == 0;
    assert |text| > 0;
  }

  /** "9:xx" never opens for the daily evaluator, and opens at 9:00 for the weekly one. */
  lemma NineColonXx(now: Instant)
    ensures DailyHours.ClockMinutes("9:xx").NaN?
    ensures WeeklyHours.OffsetMinutes("9:xx") == 9 * 60
    ensures !DailyHours.IsOpenNow(Some("9:xx"), Some("17:00"), now)
  {
    assert AllDigits("9") && "9"[..0] == "";
    ParseDigits("9");
    assert SpaceFree("xx") by {
      assert "xx"[1..][1..] == "";
    }
    TrimNoSpace("xx");
    assert "9" + ":" + "xx" == "9:xx";
    UnparsableMinute("9", "xx", Some("17:00"), now);
  }

  /** The closing instant of today's window before any move to the next day. */
  function BaseClose(close: string): int
    requires InDay(close)
  {
    if close == WeeklyHours.LastMinuteText then DayMs - 1 else DailyHours.ClockMinutes(close).v * MinuteMs
  }

  /**
   * With the same well-formed `[open, close]` for today and yesterday, the
   * two windows open at the opening minute of today and of yesterday.
   */
  lemma PairWindows(open: string, close: string, hours: WeeklyHours.HoursMap, now: Instant, o: int, c0: int)
    requires InDay(open) && InDay(close)
    requires WeeklyHours.Days[now.day] in hours
    requires hours[WeeklyHours.Days[now.day]] == [open, close]
    requires WeeklyHours.Days[WeeklyHours.DayBefore(now.day)] in hours
    requires hours[WeeklyHours.Days[WeeklyHours.DayBefore(now.day)]] == [open, close]
    requires o == DailyHours.ClockMinutes(open).v * MinuteMs && c0 == BaseClose(close)
    ensures && WeeklyHours.TodayWindow(hours, now) == Some(WeeklyHours.Interval(o, WeeklyHours.MovedClose(c0, o)))
            && WeeklyHours.YesterdayWindow(hours, now) == Some(WeeklyHours.Interval(o - DayMs, WeeklyHours.MovedClose(c0 - DayMs, o - DayMs)))
  {
    ClosedIsNotATime();
    OffsetAgrees(open);
    OffsetAgrees(close);
    if close == WeeklyHours.LastMinuteText {
      LastMinuteIs1439();
    }
    assert WeeklyHours.SetHoursOffset(open) == o;
    assert WeeklyHours.ClosingInstant(close, 0) == c0;
    WeeklyHours.TodayWindowOfPair(hours, now, open, close, o, c0);
    WeeklyHours.YesterdayWindowOfPair(hours, now, open, close, o, c0);
  }

  /**
   * With the same well-formed `[open, close]` for today and yesterday, the
   * weekly evaluator tests `now` against two windows opening at the opening
   * minute of yesterday and of today.
   */
  lemma WeeklyAsWindows(open: string, close: string, hours: WeeklyHours.HoursMap, now: Instant)
    requires InDay(open) && InDay(close)
    requires WeeklyHours.Days[now.day] in hours
    requires hours[WeeklyHours.Days[now.day]] == [open, close]
    requires WeeklyHours.Days[WeeklyHours.DayBefore(now.day)] in hours
    requires hours[WeeklyHours.Days[WeeklyHours.DayBefore(now.day)]] == [open, close]
    ensures var s, c0 := DailyHours.ClockMinutes(open).v, BaseClose(close);
            var tc := if c0 <= s * MinuteMs then c0 + DayMs else c0;
            var yc := if c0 - DayMs <= s * MinuteMs - DayMs then c0 else c0 - DayMs;
            (WeeklyHours.IsOpenNow(WeeklyHours.Place(false, Some(hours)), now).open
             <==> (s * MinuteMs <= now.ms <= tc) || (s * MinuteMs - DayMs <= now.ms <= yc))
  {
    PairWindows(open, close, hours, now, DailyHours.ClockMinutes(open).v * MinuteMs, BaseClose(close));
  }

  /**
   * With the same well-formed `[open, close]` for today and yesterday, the
   * weekly evaluator says open exactly when the daily one does, or at the
   * closing minute (its first millisecond, or all of it for "23:59"), or
   * always when open and close are equal and the close is not "23:59".
   */
  lemma DailyVersusWeekly(open: string, close: string, hours: WeeklyHours.HoursMap, now: Instant)
    requires InDay(open) && InDay(close)
    requires WeeklyHours.Days[now.day] in hours
    requires hours[WeeklyHours.Days[now.day]] == [open, close]
    requires WeeklyHours.Days[WeeklyHours.DayBefore(now.day)] in hours
    requires hours[WeeklyHours.Days[WeeklyHours.DayBefore(now.day)]] == [open, close]
    ensures var s, e, cur := DailyHours.ClockMinutes(open).v, DailyHours.ClockMinutes(close).v, MinuteOfDay(now);
            (WeeklyHours.IsOpenNow(WeeklyHours.Place(false, Some(hours)), now).open
             <==> || DailyHours.IsOpenNow(Some(open), Some(close), now)
                  || (cur == e && (OnTheMinute(now) || close == WeeklyHours.LastMinuteText))
                  || (s == e && close != WeeklyHours.LastMinuteText))
  {
    var s, e, cur := DailyHours.ClockMinutes(open).v, DailyHours.ClockMinutes(close).v, MinuteOfDay(now);
    var lm := close == WeeklyHours.LastMinuteText;
    if lm {
      LastMinuteIs1439();
    }
    WeeklyAsWindows(open, close, hours, now);
    DailyHours.WindowRule(open, close, now);
    WindowArithmetic(s, e, cur, now.ms, lm);
  }

  /**
   * The closing time the weekly evaluator reports reads back, through the
   * daily parser, as the listed closing time.
   */
  lemma ClosesAtReadsBack(open: string, close: string, hours: WeeklyHours.HoursMap, now: Instant)
    requires InDay(open) && InDay(close)
    requires WeeklyHours.Days[now.day] in hours
    requires hours[WeeklyHours.Days[now.day]] == [open, close]
    requires WeeklyHours.Days[WeeklyHours.DayBefore(now.day)] in hours
    requires hours[WeeklyHours.Days[WeeklyHours.DayBefore(now.day)]] == [open, close]
    requires WeeklyHours.IsOpenNow(WeeklyHours.Place(false, Some(hours)), now).open
    ensures var r := WeeklyHours.IsOpenNow(WeeklyHours.Place(false, Some(hours)), now);
            r.closesAt.Some? && DailyHours.ClockMinutes(r.closesAt.value) == DailyHours.ClockMinutes(close)
  {
    var e := DailyHours.ClockMinutes(close).v;
    var lm := close == WeeklyHours.LastMinuteText;
    if lm {
      LastMinuteIs1439();
    }
    var c0 := BaseClose(close);
    PairWindows(open, close, hours, now, DailyHours.ClockMinutes(open).v * MinuteMs, c0);
    var today := WeeklyHours.TodayWindow(hours, now);
    var c := if WeeklyHours.HoldsNow(today, now) then today.value.c
             else WeeklyHours.YesterdayWindow(hours, now).value.c;
    var k :| -1 <= k <= 1 && c == c0 + k * DayMs;
    var r := WeeklyHours.IsOpenNow(WeeklyHours.Place(false, Some(hours)), now);
    assert r.closesAt == Some(WeeklyHours.ClosesAtText(c));
    var text := WeeklyHours.ClosesAtText(c);
    if lm {
      WeeklyHours.LastMinuteReportedAs2359(c, k);
      assert text == WeeklyHours.LastMinuteText;
    } else {
      WeeklyHours.ClosesAtOfTimeOfDay(c, e, k);
      ClockTextOfMinute(text, e);
    }
  }
}
