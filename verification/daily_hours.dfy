/**
 * The single-window evaluator of `lib/isOpenNow.ts`: a venue has one
 * opening and one closing "HH:MM" text, read as minutes since midnight.
 * A close earlier than the open runs past midnight; the opening minute is
 * open and the closing minute is closed.
 */
module DailyHours {
  import opened Optional
  import opened Text
  import opened JsNumber
  import opened Clock

  /** `const [h, m = "0"] = text.split(":")`, then `Number(h) * 60 + Number(m)`. */
  function ClockMinutes(text: string): Num {
    var parts := Split(text, ':');
    var h := ParseNumber(parts[0]);
    var m := if |parts| >= 2 then ParseNumber(parts[1]) else ParseNumber("0");
    Plus(Scale(h, 60), m)
  }

  /** Whether the venue is open at `now`. */
  function IsOpenNow(open: Option<string>, close: Option<string>, now: Instant): (r: bool)
    // a missing or empty time is closed
    ensures !Truthy(open) || !Truthy(close) ==> !r
    // a time that does not parse is closed
    ensures Truthy(open) && Truthy(close)
            && (ClockMinutes(open.value).NaN? || ClockMinutes(close.value).NaN?)
            ==> !r
    ensures Truthy(open) && Truthy(close)
            && ClockMinutes(open.value).Fin? && ClockMinutes(close.value).Fin? ==>
              var start, end, cur := ClockMinutes(open.value).v, ClockMinutes(close.value).v, MinuteOfDay(now);
              // a degenerate window is never open
              && (start == end ==> !r)
              // a same-day window is half-open
              && (start < end ==> (r <==> start <= cur < end))
              // an overnight window is open after the start or before the end
              && (end < start ==> (r <==> cur >= start || cur < end))
  {
    if !Truthy(open) || !Truthy(close) then false
    else
      var startMinutes := ClockMinutes(open.value);
      var endMinutes := ClockMinutes(close.value);
      var curMinutes := Fin(MinuteOfDay(now));
      if Below(endMinutes, startMinutes) then
        AtLeast(curMinutes, startMinutes) || Below(curMinutes, endMinutes)
      else
        AtLeast(curMinutes, startMinutes) && Below(curMinutes, endMinutes)
  }

  /** Minutes from `from` forward to `to`, going round the clock. */
  function RoundTheClock(from: int, to: int): int {
    (to - from) % MinutesPerDay
  }

  /**
   * For times within one day the rule is a single test: the minutes elapsed
   * since opening, counted round the clock, are fewer than the length of
   * the window, counted round the clock.
   */
  lemma ElapsedSinceOpening(open: string, close: string, now: Instant)
    requires |open| > 0 && |close| > 0
    requires ClockMinutes(open).Fin? && 0 <= ClockMinutes(open).v < MinutesPerDay
    requires ClockMinutes(close).Fin? && 0 <= ClockMinutes(close).v < MinutesPerDay
    ensures var start, end := ClockMinutes(open).v, ClockMinutes(close).v;
            (IsOpenNow(Some(open), Some(close), now)
            <==> RoundTheClock(start, MinuteOfDay(now)) < RoundTheClock(start, end))
  {
    var start, end, cur := ClockMinutes(open).v, ClockMinutes(close).v, MinuteOfDay(now);
    var shape := if end < start then cur >= start || cur < end else start <= cur < end;
    assert IsOpenNow(Some(open), Some(close), now) == shape by {
      WindowRule(open, close, now);
    }
    assert shape <==> RoundTheClock(start, cur) < RoundTheClock(start, end) by {
      ElapsedRule(start, end, cur);
    }
  }

  /** The three shapes of window, folded into one comparison on minutes. */
  lemma WindowRule(open: string, close: string, now: Instant)
    requires |open| > 0 && |close| > 0
    requires ClockMinutes(open).Fin? && ClockMinutes(close).Fin?
    ensures IsOpenNow(Some(open), Some(close), now)
            == (var start, end, cur := ClockMinutes(open).v, ClockMinutes(close).v, MinuteOfDay(now);
                if end < start then cur >= start || cur < end else start <= cur < end)
  {
  }

  lemma ElapsedRule(start: int, end: int, cur: int)
    requires 0 <= start < MinutesPerDay && 0 <= end < MinutesPerDay && 0 <= cur < MinutesPerDay
    ensures (if end < start then cur >= start || cur < end else start <= cur < end)
            <==> RoundTheClock(start, cur) < RoundTheClock(start, end)
  {
    if cur >= start {
      assert (cur - start) % MinutesPerDay == cur - start;
    } else {
      assert (cur - start) % MinutesPerDay == cur - start + MinutesPerDay;
    }
    if end >= start {
      assert (end - start) % MinutesPerDay == end - start;
    } else {
      assert (end - start) % MinutesPerDay == end - start + MinutesPerDay;
    }
  }

  /** Only the minute of the day matters: seconds and the weekday do not. */
  lemma SameMinuteSameAnswer(open: Option<string>, close: Option<string>, a: Instant, b: Instant)
    requires a.ms / MinuteMs == b.ms / MinuteMs
    ensures IsOpenNow(open, close, a) == IsOpenNow(open, close, b)
  {
  }

  /** `ClockMinutes` read off a known split of the text. */
  lemma ClockMinutesOfParts(text: string, parts: seq<string>)
    requires Split(text, ':') == parts
    ensures ClockMinutes(text)
            == Plus(Scale(ParseNumber(parts[0]), 60), if |parts| >= 2 then ParseNumber(parts[1]) else Fin(0))
  {
    ParseZeros();
  }

  /** A time without a minute part means on the hour: "9" reads as "9:00". */
  lemma MissingMinuteIsZero(hour: string)
    requires ':' !in hour
    ensures ClockMinutes(hour) == ClockMinutes(hour + ":00")
  {
    SplitWithoutSeparator(hour, ':');
    SplitWithoutSeparator("00", ':');
    SplitAfterPart(hour, ':', "00");
    assert hour + ":00" == hour + [':'] + "00";
    ParseZeros();
    ClockMinutesOfParts(hour, [hour]);
    ClockMinutesOfParts(hour + ":00", [hour, "00"]);
  }

  /** Two padded numbers joined by a colon read back as hours and minutes. */
  lemma PaddedClockText(h: nat, m: nat)
    ensures ClockMinutes(Pad2(h) + ":" + Pad2(m)) == Fin(h * 60 + m)
  {
    var hh, mm := Pad2(h), Pad2(m);
    var text := hh + ":" + mm;
    assert Split(text, ':') == [hh, mm] by {
      assert text == hh + [':'] + mm;
      SplitPair(hh, ':', mm);
    }
    ClockMinutesOfParts(text, [hh, mm]);
    Pad2RoundTrip(h);
    Pad2RoundTrip(m);
  }
}
