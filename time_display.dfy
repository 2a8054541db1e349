/** The two display lines: the current time in 12-hour form and the alarm
    line; the current time is given as its 24-hour hour and minute. */
module TimeDisplay {
  import opened Wrappers
  import opened Text
  import opened Protocol

  /** A TimeDisplay: the current time, and the alarm if one is set. */
  datatype Display = Display(hour24: int, minute: int, alarm: Option<Alarm>) {
    predicate Valid() { 0 <= hour24 <= 23 && 0 <= minute <= 59 }
  }

  /** strftime("%I:%M %p"): the 12-hour hour padded to two digits (12 for
      hours 0 and 12), the minute, then AM before noon and PM from noon. */
  function Strftime(hour24: int, minute: int): string
    requires 0 <= hour24 <= 23 && 0 <= minute <= 59
  {
    var hour12 := if hour24 % 12 == 0 then 12 else hour24 % 12;
    TwoDigits(hour12) + ":" + TwoDigits(minute) + " " + (if hour24 < 12 then "AM" else "PM")
  }

  /** get_time_line: the strftime text without the hour's leading zero. */
  function TimeLine(hour24: int, minute: int): string
    requires 0 <= hour24 <= 23 && 0 <= minute <= 59
  {
    var t := Strftime(hour24, minute);
    if t[0] == '0' then t[1..] else t
  }

  lemma TwelveHour(hour24: int)
    requires 0 <= hour24 <= 23
    ensures (if hour24 % 12 == 0 then 12 else hour24 % 12)
         == if hour24 == 0 then 12 else if hour24 <= 12 then hour24 else hour24 - 12
  {
    if hour24 >= 12 {
      assert hour24 % 12 == hour24 - 12;
    } else {
      assert hour24 % 12 == hour24;
    }
  }

  /** The time line is the clock text of the 12-hour time: hour 0 shows as
      12 AM, 1-11 as themselves AM, 12 as 12 PM, 13-23 as hour - 12 PM. */
  lemma TimeLineIsClockText(hour24: int, minute: int)
    requires 0 <= hour24 <= 23 && 0 <= minute <= 59
    ensures TimeLine(hour24, minute)
         == ClockText(if hour24 == 0 then 12 else if hour24 <= 12 then hour24 else hour24 - 12,
                      minute, hour24 >= 12)
  {
    var hour12 := if hour24 % 12 == 0 then 12 else hour24 % 12;
    TwelveHour(hour24);
    var h := TwoDigits(hour12);
    StripLeadingZero(h, TwoDigits(minute), Period(hour24 >= 12));
    TwoDigitsUnpadded(hour12);
  }

  lemma StripLeadingZero(h: string, mm: string, period: string)
    requires |h| == 2
    ensures var t := h + ":" + mm + " " + period;
      (if t[0] == '0' then t[1..] else t)
      == (if h[0] == '0' then h[1..] else h) + ":" + mm + " " + period
  {
    var t := h + ":" + mm + " " + period;
    assert t[0] == h[0];
    if h[0] == '0' {
      assert t[1..] == h[1..] + ":" + mm + " " + period;
    }
  }

  /** The time shown for an alarm's own 24-hour time reads exactly as the alarm. */
  lemma TimeLineOfAlarmTime(a: Alarm)
    ensures TimeLine(Hour24(a).0, Hour24(a).1) == AlarmText(a)
  {
    TimeLineIsClockText(Hour24(a).0, Hour24(a).1);
  }

  /** get_alarm_line: an Alarm object is always truthy. */
  function AlarmLine(alarm: Option<Alarm>): string
  {
    match alarm
    case Some(a) => "Alarm: " + AlarmText(a)
    case None => "No Alarm"
  }

  /** The alarm line tells the alarms apart, and "No Alarm" from all of them. */
  lemma AlarmLineInjective(x: Option<Alarm>, y: Option<Alarm>)
    requires AlarmLine(x) == AlarmLine(y)
    ensures x == y
  {
    if x.Some? && y.Some? {
      AlarmTextRoundTrip(x.value);
      AlarmTextRoundTrip(y.value);
      assert AlarmLine(x)[7..] == AlarmText(x.value);
      assert AlarmLine(y)[7..] == AlarmText(y.value);
    }
  }

  /** __str__: the time line, a newline, the alarm line. */
  function Render(d: Display): string
    requires d.Valid()
  {
    TimeLine(d.hour24, d.minute) + "\n" + AlarmLine(d.alarm)
  }

  lemma TimeLineHasNoNewline(hour24: int, minute: int)
    requires 0 <= hour24 <= 23 && 0 <= minute <= 59
    ensures '\n' !in TimeLine(hour24, minute)
  {
    TimeLineIsClockText(hour24, minute);
    ClockTextHasNoNewline(if hour24 == 0 then 12 else if hour24 <= 12 then hour24 else hour24 - 12,
                          minute, hour24 >= 12);
  }

  lemma AlarmLineHasNoNewline(alarm: Option<Alarm>)
    ensures '\n' !in AlarmLine(alarm)
  {
    if alarm.Some? {
      var a := alarm.value;
      ClockTextHasNoNewline(a.hours, a.minutes, a.isPm);
      var l := AlarmLine(alarm);
      forall k | 0 <= k < |l| ensures l[k] != '\n' {
        if k >= 7 { assert l[k] == AlarmText(a)[k - 7]; }
      }
    }
  }

  /** The rendering holds exactly one newline and splits at it into the two lines. */
  lemma RenderIsTwoLines(d: Display)
    requires d.Valid()
    ensures multiset(Render(d))['\n'] == 1
    ensures Split(Render(d), '\n') == [TimeLine(d.hour24, d.minute), AlarmLine(d.alarm)]
  {
    var t, l := TimeLine(d.hour24, d.minute), AlarmLine(d.alarm);
    TimeLineHasNoNewline(d.hour24, d.minute);
    AlarmLineHasNoNewline(d.alarm);
    assert Join([t, l], '\n') == Render(d) by { assert [t, l][1..] == [l]; }
    SplitJoin([t, l], '\n');
    JoinCountsSeparators([t, l], '\n');
  }
}
