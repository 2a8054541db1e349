/** The host application's glue: the web form's 24-hour to 12-hour
    conversion, the once-a-second scheduler tick, routing of node events to
    the alarm manager, and the local snooze button's guard. */
module HostApp {
  import opened Wrappers
  import opened Protocol
  import opened AlarmManagement
  import opened HostServer

  /** index(): a 24-hour hour as a 12-hour hour and a PM flag. The hour is
      in the afternoon half exactly for PM and agrees with hour24 modulo 12. */
  function To12Hour(hour24: int): (r: (int, bool))
    requires 0 <= hour24 <= 23
    ensures 1 <= r.0 <= 12
    ensures r.1 <==> hour24 >= 12
    ensures r.0 % 12 == hour24 % 12
  {
    if hour24 == 0 then (12, false)
    else if 1 <= hour24 < 12 then (hour24, false)
    else if hour24 == 12 then (12, true)
    else (hour24 - 12, true)
  }

  /** The Alarm index() builds from a submitted time. Construction never
      fails on a time of day, and get_24hr_time gives that time back. */
  function FormAlarm(hour24: int, minute: int): (a: Alarm)
    requires 0 <= hour24 <= 23 && 0 <= minute <= 59
    ensures NewAlarm(To12Hour(hour24).0, minute, To12Hour(hour24).1) == Success(a)
    ensures Hour24(a) == (hour24, minute)
  {
    var (hour12, isPm) := To12Hour(hour24);
    AlarmFields(hour12, minute, isPm)
  }

  /** The other direction: converting an alarm's 24-hour time back through
      the form gives the same alarm, so the two conversions are inverse. */
  lemma FormAlarmOfHour24(a: Alarm)
    ensures FormAlarm(Hour24(a).0, Hour24(a).1) == a
  {
  }

  /** index() on a valid submission: the converted alarm is set. */
  method SubmitForm(manager: AlarmManager, hour24: int, minute: int, now: Micros) returns (alarm: Alarm)
    requires 0 <= hour24 <= 23 && 0 <= minute <= 59
    modifies manager
    ensures manager.Valid() && old(manager.events) <= manager.events && Hour24(alarm) == (hour24, minute)
    ensures Step(manager.State(), manager.events[|old(manager.events)|..]) == old(manager.State()).Set(alarm, now)
  {
    alarm := FormAlarm(hour24, minute);
    manager.SetAlarm(alarm, now);
  }

  /** current_time.replace(hour, minute, second=0, microsecond=0): today's
      hh:mm:00 of the alarm. */
  function TodayAt(a: Alarm, now: Micros): (t: Micros)
    ensures DayStart(t) == DayStart(now)
    ensures t - DayStart(t) == TimeOfDay(Hour24(a).0, Hour24(a).1)
  {
    DayOffset(DayStart(now), TimeOfDay(Hour24(a).0, Hour24(a).1));
    DayStart(now) + TimeOfDay(Hour24(a).0, Hour24(a).1)
  }

  /** abs((now - alarm_time).total_seconds()) < 1 */
  predicate WithinOneSecond(now: Micros, t: Micros)
  {
    -MicrosPerSecond < now - t < MicrosPerSecond
  }

  /** The tick's decision: the alarm to trigger, if any. Nothing happens
      while an alarm rings or when none is set. */
  function TickDecision(s: Session, now: Micros): (fire: Option<Alarm>)
    ensures s.active || s.current.None? ==> fire.None?
    ensures fire.Some? <==> !s.active && s.current.Some? && WithinOneSecond(now, TodayAt(s.current.value, now))
    ensures fire.Some? ==> s.current == fire
  {
    if s.active then None
    else match s.current
      case None => None
      case Some(alarm) => if WithinOneSecond(now, TodayAt(alarm, now)) then Some(alarm) else None
  }

  /** A tick that fires leaves the alarm ringing, so no later tick fires
      again until the episode ends. */
  lemma FiredTickBlocksNextTick(s: Session, now: Micros, later: Micros)
    requires TickDecision(s, now).Some?
    ensures TickDecision(s.Trigger(TickDecision(s, now).value, now).next, later).None?
  {
  }

  /** The instant of tick i of a run that polls once a second from t0. */
  function TickTime(t0: Micros, i: nat): Micros
  {
    t0 + i * MicrosPerSecond
  }

  /** Tick i is within one second of hh:mm:00 of its own day. */
  predicate InWindow(a: Alarm, t0: Micros, i: nat)
  {
    WithinOneSecond(TickTime(t0, i), TodayAt(a, TickTime(t0, i)))
  }

  /** n iterations of alarm_scheduler, polling at t0, t0 + 1 s, t0 + 2 s, ...;
      each tick decides as SchedulerTick does and triggers through the manager. */
  function Ticks(s: Session, t0: Micros, n: nat): Step
  {
    if n == 0 then Step(s, [])
    else
      var before := Ticks(s, t0, n - 1);
      var now := TickTime(t0, n - 1);
      match TickDecision(before.next, now)
      case None => before
      case Some(alarm) =>
        var fired := before.next.Trigger(alarm, now);
        Step(fired.next, before.emitted + fired.emitted)
  }

  lemma SameDay(t0: Micros, t: Micros)
    requires t0 <= t < DayStart(t0) + MicrosPerDay
    ensures DayStart(t) == DayStart(t0)
  {
    DayOffset(DayStart(t0), t - DayStart(t0));
  }

  /** Ticks none of which comes within a second of its day's hh:mm:00 do nothing. */
  lemma {:induction false} TicksOutsideWindow(s: Session, a: Alarm, t0: Micros, n: nat)
    requires !s.active && s.current == Some(a)
    requires forall i :: 0 <= i < n ==> !InWindow(a, t0, i)
    ensures Ticks(s, t0, n) == Step(s, [])
  {
    if n > 0 {
      TicksOutsideWindow(s, a, t0, n - 1);
      assert !InWindow(a, t0, n - 1);
    }
  }

  /** Once a tick has fired, the ticks after it change nothing. */
  lemma {:induction false} TicksAfterFiring(s: Session, t0: Micros, k: nat, n: nat)
    requires k <= n && Ticks(s, t0, k).next.active
    ensures Ticks(s, t0, n) == Ticks(s, t0, k)
  {
    if k < n {
      TicksAfterFiring(s, t0, k, n - 1);
    }
  }

  lemma FiringTick(s: Session, a: Alarm, t0: Micros, k: nat)
    requires Ticks(s, t0, k) == Step(s, []) && TickDecision(s, TickTime(t0, k)) == Some(a)
    ensures Ticks(s, t0, k + 1)
         == Step(s.(active := true, snoozeCount := 0),
                 [AlarmEvent(AlarmTriggered, AlarmPayload(a), TickTime(t0, k))])
  {
    assert [] + [AlarmEvent(AlarmTriggered, AlarmPayload(a), TickTime(t0, k))]
        == [AlarmEvent(AlarmTriggered, AlarmPayload(a), TickTime(t0, k))];
  }

  /** Polling once a second triggers a scheduled, silent alarm exactly once:
      at the first tick that comes within one second of hh:mm:00 of that
      tick's own day, and never again while it rings. */
  lemma OneSecondPollingFiresOnce(s: Session, a: Alarm, t0: Micros, n: nat, k: nat)
    requires !s.active && s.current == Some(a)
    requires k < n && InWindow(a, t0, k)
    requires forall i :: 0 <= i < k ==> !InWindow(a, t0, i)
    ensures Ticks(s, t0, n).next == s.(active := true, snoozeCount := 0)
    ensures Ticks(s, t0, n).emitted == [AlarmEvent(AlarmTriggered, AlarmPayload(a), TickTime(t0, k))]
  {
    TicksOutsideWindow(s, a, t0, k);
    FiringTick(s, a, t0, k);
    TicksAfterFiring(s, t0, k + 1, n);
  }

  /** A run that starts no later than T has a tick in the last second up
      to T: tick (T - t0) / 1 s. */
  lemma FirstTickInWindow(t0: Micros, T: Micros)
    requires t0 <= T
    ensures var k := (T - t0) / MicrosPerSecond;
      0 <= k && T - MicrosPerSecond < TickTime(t0, k) <= T
  {
  }

  /** A tick a second or more before today's hh:mm:00 is outside the window. */
  lemma EarlyTickOutsideWindow(a: Alarm, t0: Micros, i: nat)
    requires t0 <= TickTime(t0, i) <= TodayAt(a, t0) - MicrosPerSecond
    ensures !InWindow(a, t0, i)
  {
    SameDay(t0, TickTime(t0, i));
  }

  /** A run that starts on the alarm's day no later than its hh:mm:00 and
      reaches it fires at the tick in the last second up to hh:mm:00. */
  lemma PollingThroughTheMinuteFires(s: Session, a: Alarm, t0: Micros, n: nat)
    requires !s.active && s.current == Some(a)
    requires t0 <= TodayAt(a, t0) < TickTime(t0, n)
    ensures var k := (TodayAt(a, t0) - t0) / MicrosPerSecond;
      && k < n
      && Ticks(s, t0, n).next == s.(active := true, snoozeCount := 0)
      && Ticks(s, t0, n).emitted == [AlarmEvent(AlarmTriggered, AlarmPayload(a), TickTime(t0, k))]
  {
    var T := TodayAt(a, t0);
    FirstTickInWindow(t0, T);
    var k := (T - t0) / MicrosPerSecond;
    forall i | 0 <= i < k ensures !InWindow(a, t0, i) {
      EarlyTickOutsideWindow(a, t0, i);
    }
    SameDay(t0, TickTime(t0, k));
    OneSecondPollingFiresOnce(s, a, t0, n, k);
  }

  /** A 12:00 AM alarm polled from 23:59:58 is not fired by the two ticks
      before midnight, which compare against the midnight that began their
      own day, and fires at the tick on the next day's 00:00:00. */
  lemma MidnightAlarmFiresAtMidnight(s: Session, d: Micros, n: nat)
    requires !s.active && s.current == Some(AlarmFields(12, 0, false))
    requires d % MicrosPerDay == 0 && 3 <= n
    ensures Ticks(s, d - 2 * MicrosPerSecond, n).emitted
         == [AlarmEvent(AlarmTriggered, AlarmPayload(AlarmFields(12, 0, false)), d)]
  {
    var a: Alarm := AlarmFields(12, 0, false);
    var t0 := d - 2 * MicrosPerSecond;
    var k := d / MicrosPerDay;
    assert d - MicrosPerDay == (k - 1) * MicrosPerDay;
    DayOffset(d - MicrosPerDay, MicrosPerDay - 2 * MicrosPerSecond);
    DayOffset(d - MicrosPerDay, MicrosPerDay - MicrosPerSecond);
    DayOffset(d, 0);
    assert TickTime(t0, 2) == d;
    assert !InWindow(a, t0, 0) && !InWindow(a, t0, 1) && InWindow(a, t0, 2);
    OneSecondPollingFiresOnce(s, a, t0, n, 2);
  }

  /** alarm_scheduler, one iteration after its sleep. */
  method SchedulerTick(manager: AlarmManager, now: Micros) returns (fired: bool)
    modifies manager
    ensures old(manager.Valid()) ==> manager.Valid()
    ensures old(manager.events) <= manager.events
    ensures fired <==> TickDecision(old(manager.State()), now).Some?
    ensures !fired ==> manager.State() == old(manager.State()) && manager.events == old(manager.events)
    ensures fired ==>
      Step(manager.State(), manager.events[|old(manager.events)|..])
      == old(manager.State()).Trigger(TickDecision(old(manager.State()), now).value, now)
  {
    var active := manager.IsAlarmActive();
    if active {
      return false;
    }
    var alarm := manager.GetCurrentAlarm();
    if alarm.None? {
      return false;
    }
    var (hour24, minute) := Hour24(alarm.value);
    var alarmTime := DayStart(now) + TimeOfDay(hour24, minute);
    if -MicrosPerSecond < now - alarmTime < MicrosPerSecond {
      manager.TriggerAlarm(alarm.value, now);
      fired := true;
    } else {
      fired := false;
    }
  }

  /** handle_event as written: only SNOOZE_PRESSED reaches the manager, but
      the call hands the sender's address to handle_snooze as its node count
      (and the count as its source label). While the alarm rings the press
      is counted and the call raises; raised reports that. */
  method HandleEvent(manager: AlarmManager, host: AlarmHost, event: AlarmEvent, addr: Addr, now: Micros)
    returns (raised: bool)
    modifies manager
    ensures old(manager.Valid()) ==> manager.Valid()
    ensures old(manager.events) <= manager.events
    ensures event.eventType != SnoozePressed ==>
      !raised && manager.State() == old(manager.State()) && manager.events == old(manager.events)
    ensures event.eventType == SnoozePressed ==>
      (Step(manager.State(), manager.events[|old(manager.events)|..]), raised)
      == old(manager.State()).SnoozeNonNumeric()
  {
    raised := false;
    if event.eventType == SnoozePressed {
      var count := host.ConnectedNodesCount();
      raised := manager.HandleSnoozeNonNumeric();
    }
  }

  /** handle_event as evidently intended: the press is handed to
      handle_snooze with the current node count, so presses reach the
      quorum; every other type is ignored. */
  method HandleEventCorrected(manager: AlarmManager, host: AlarmHost, event: AlarmEvent, now: Micros)
    modifies manager
    ensures old(manager.Valid()) ==> manager.Valid()
    ensures old(manager.events) <= manager.events
    ensures event.eventType != SnoozePressed ==>
      manager.State() == old(manager.State()) && manager.events == old(manager.events)
    ensures event.eventType == SnoozePressed ==>
      Step(manager.State(), manager.events[|old(manager.events)|..])
      == old(manager.State()).Snooze(|host.clients.Keys|, now)
  {
    if event.eventType == SnoozePressed {
      var count := host.ConnectedNodesCount();
      manager.HandleSnooze(count, now);
    }
  }

  /** button_monitor's guard: a host snooze is requested only while the
      alarm rings and a present button reads pressed. */
  method HostButtonPoll(manager: AlarmManager, hasButton: bool, pressed: bool) returns (snooze: bool)
    ensures snooze <==> manager.alarmActive && hasButton && pressed
  {
    var active := manager.IsAlarmActive();
    snooze := false;
    if active && hasButton {
      if pressed {
        snooze := true;
      }
    }
  }
}
