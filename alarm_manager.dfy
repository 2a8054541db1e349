/** The host's alarm coordinator: the scheduled alarm, whether it is ringing,
    and how many snoozes the current episode has collected. Every transition
    runs under the manager's lock and hands at most one event to the
    broadcast callback; the callback is modelled as the log of events it
    received. */
module AlarmManagement {
  import opened Wrappers
  import opened Protocol

  /** The payload of ALARM_CLEARED: an empty dict. */
  const EmptyPayload: Value := VObject(map[])

  /** The fields current_alarm, alarm_active and snooze_count. */
  datatype Session = Session(current: Option<Alarm>, active: bool, snoozeCount: nat) {

    /** Snoozes are only counted while the alarm rings. */
    predicate Inv() { !active ==> snoozeCount == 0 }

    /** set_alarm: schedules a, and ends any episode that is ringing. */
    function Set(a: Alarm, now: Micros): (r: Step)
      ensures r.next.Inv() && r.next.current == Some(a) && !r.next.active
      ensures |r.emitted| == 1 && r.emitted[0].eventType == AlarmSet && r.emitted[0].data == AlarmPayload(a)
    {
      Step(Session(Some(a), false, 0), [NewEvent(AlarmSet, AlarmPayload(a), None, now)])
    }

    /** remove_alarm: back to no alarm, nothing ringing. */
    function Remove(now: Micros): (r: Step)
      ensures r.next.Inv() && r.next.current == None && !r.next.active
      ensures |r.emitted| == 1 && r.emitted[0].eventType == AlarmCleared && r.emitted[0].data == EmptyPayload
    {
      Step(Session(None, false, 0), [NewEvent(AlarmCleared, EmptyPayload, None, now)])
    }

    /** trigger_alarm: starts an episode unless one is already ringing. The
        scheduled alarm is not consulted or changed. */
    function Trigger(a: Alarm, now: Micros): (r: Step)
      ensures active ==> r == Step(this, [])
      ensures !active ==> r.next == this.(active := true, snoozeCount := 0)
      ensures !active ==>
        |r.emitted| == 1 && r.emitted[0].eventType == AlarmTriggered && r.emitted[0].data == AlarmPayload(a)
      ensures r.next.Inv()
    {
      if active then Step(this, [])
      else Step(this.(active := true, snoozeCount := 0), [NewEvent(AlarmTriggered, AlarmPayload(a), None, now)])
    }

    /** handle_snooze: one more press; once the presses reach the devices
        (the connected nodes plus the host) the episode ends and the alarm is
        dropped. */
    function Snooze(connected: nat, now: Micros): (r: Step)
      ensures !active ==> r == Step(this, [])
      ensures active ==> (r.next.active <==> snoozeCount + 1 < connected + 1)
      ensures active && r.next.active ==> r.next == this.(snoozeCount := snoozeCount + 1) && r.emitted == []
      ensures active && !r.next.active ==>
        r.next == Session(None, false, 0) && |r.emitted| == 1 && r.emitted[0].eventType == AlarmCleared
      ensures Inv() ==> r.next.Inv()
    {
      if !active then Step(this, [])
      else
        var count := snoozeCount + 1;
        var totalDevices := connected + 1;
        if count >= totalDevices then
          Step(Session(None, false, 0), [NewEvent(AlarmCleared, EmptyPayload, None, now)])
        else
          Step(this.(snoozeCount := count), [])
    }

    /** handle_snooze called with a connected_nodes_count that is not a
        number: the press is counted, then computing the device total raises
        TypeError, so no quorum is checked and nothing is emitted. The second
        component reports the raise. */
    function SnoozeNonNumeric(): (r: (Step, bool))
      ensures !active ==> r == (Step(this, []), false)
      ensures active ==> r.1 && r.0.next == this.(snoozeCount := snoozeCount + 1) && r.0.emitted == []
      ensures Inv() ==> r.0.next.Inv()
    {
      if !active then (Step(this, []), false)
      else (Step(this.(snoozeCount := snoozeCount + 1), []), true)
    }

    /** k presses in a row, all at the same connected count. */
    function Snoozes(connected: nat, k: nat, now: Micros): Step
    {
      if k == 0 then Step(this, [])
      else
        var before := Snoozes(connected, k - 1, now);
        var last := before.next.Snooze(connected, now);
        Step(last.next, before.emitted + last.emitted)
    }
  }

  /** A transition's new session and the events it hands to the callback. */
  datatype Step = Step(next: Session, emitted: seq<AlarmEvent>)

  const Idle: Session := Session(None, false, 0)

  /** Presses below the quorum only count: the alarm keeps ringing and
      nothing is broadcast. */
  lemma {:induction false} SnoozesBelowQuorum(s: Session, connected: nat, k: nat, now: Micros)
    requires s.active && s.snoozeCount + k <= connected
    ensures s.Snoozes(connected, k, now) == Step(s.(snoozeCount := s.snoozeCount + k), [])
  {
    if k > 0 {
      SnoozesBelowQuorum(s, connected, k - 1, now);
    }
  }

  /** Right after a trigger with n nodes connected, the first n presses leave
      the alarm ringing and the press after them clears it: the alarm is
      dropped and exactly one ALARM_CLEARED goes out. */
  lemma QuorumClearsOnPressAfterNodes(s: Session, connected: nat, now: Micros)
    requires s.active && s.snoozeCount == 0
    ensures forall k :: 0 <= k <= connected ==> s.Snoozes(connected, k, now).next.active
    ensures s.Snoozes(connected, connected, now).emitted == []
    ensures s.Snoozes(connected, connected + 1, now).next == Idle
    ensures s.Snoozes(connected, connected + 1, now).emitted == [AlarmEvent(AlarmCleared, EmptyPayload, now)]
  {
    forall k | 0 <= k <= connected ensures s.Snoozes(connected, k, now).next.active {
      SnoozesBelowQuorum(s, connected, k, now);
    }
    SnoozesBelowQuorum(s, connected, connected, now);
  }

  /** A trigger while ringing is ignored, so two triggers in a row broadcast
      one ALARM_TRIGGERED in all. */
  lemma TriggerIsNotReentrant(s: Session, a: Alarm, b: Alarm, t1: Micros, t2: Micros)
    ensures var first := s.Trigger(a, t1);
      first.next.Trigger(b, t2) == Step(first.next, [])
      && |first.emitted| + |first.next.Trigger(b, t2).emitted| <= 1
  {
  }

  /** A full episode: from any scheduled, silent session, a trigger followed by
      n + 1 presses with n nodes connected broadcasts ALARM_TRIGGERED then
      ALARM_CLEARED and nothing else, and ends with no alarm. */
  lemma EpisodeEmitsTriggeredThenCleared(s: Session, a: Alarm, connected: nat, t: Micros, now: Micros)
    requires !s.active && s.current.Some?
    ensures var trig := s.Trigger(a, t);
      var snz := trig.next.Snoozes(connected, connected + 1, now);
      snz.next == Idle
      && trig.emitted + snz.emitted
         == [AlarmEvent(AlarmTriggered, AlarmPayload(a), t), AlarmEvent(AlarmCleared, EmptyPayload, now)]
  {
    var trig := s.Trigger(a, t);
    QuorumClearsOnPressAfterNodes(trig.next, connected, now);
  }

  /** With one node connected, two presses end the episode when handle_snooze
      receives the node count; when it receives the node's address in that
      place instead, a press raises and leaves the alarm ringing with nothing
      broadcast, however many presses were counted before. */
  lemma SwappedSnoozeKeepsRinging(s: Session, now: Micros)
    requires s.active && s.snoozeCount == 0
    ensures s.Snoozes(1, 2, now).next == Idle
    ensures s.Snoozes(1, 2, now).emitted == [AlarmEvent(AlarmCleared, EmptyPayload, now)]
    ensures forall k: nat ::
      var r := s.(snoozeCount := k).SnoozeNonNumeric();
      r.1 && r.0.next.active && r.0.emitted == []
  {
    QuorumClearsOnPressAfterNodes(s, 1, now);
  }

  class AlarmManager {
    var currentAlarm: Option<Alarm>
    var alarmActive: bool
    var snoozeCount: nat
    /** Every event passed to event_callback, oldest first. */
    var events: seq<AlarmEvent>

    function State(): Session
      reads this
    {
      Session(currentAlarm, alarmActive, snoozeCount)
    }

    predicate Valid()
      reads this
    {
      State().Inv()
    }

    constructor ()
      ensures Valid() && State() == Idle && events == []
    {
      currentAlarm, alarmActive, snoozeCount := None, false, 0;
      events := [];
    }

    method SetAlarm(alarm: Alarm, now: Micros)
      modifies this
      ensures Valid() && old(events) <= events
      ensures currentAlarm == Some(alarm) && !alarmActive && snoozeCount == 0
      ensures events == old(events) + [AlarmEvent(AlarmSet, AlarmPayload(alarm), now)]
      ensures Step(State(), events[|old(events)|..]) == old(State()).Set(alarm, now)
    {
      currentAlarm := Some(alarm);
      alarmActive := false;
      snoozeCount := 0;
      var event := NewEvent(AlarmSet, AlarmPayload(alarm), None, now);
      events := events + [event];
    }

    method RemoveAlarm(now: Micros)
      modifies this
      ensures Valid() && old(events) <= events
      ensures currentAlarm == None && !alarmActive && snoozeCount == 0
      ensures events == old(events) + [AlarmEvent(AlarmCleared, EmptyPayload, now)]
      ensures Step(State(), events[|old(events)|..]) == old(State()).Remove(now)
    {
      currentAlarm := None;
      alarmActive := false;
      snoozeCount := 0;
      var event := NewEvent(AlarmCleared, EmptyPayload, None, now);
      events := events + [event];
    }

    method TriggerAlarm(alarm: Alarm, now: Micros)
      modifies this
      ensures Valid() && old(events) <= events && currentAlarm == old(currentAlarm)
      ensures old(alarmActive) ==> alarmActive && snoozeCount == old(snoozeCount) && events == old(events)
      ensures !old(alarmActive) ==>
        alarmActive && snoozeCount == 0 && events == old(events) + [AlarmEvent(AlarmTriggered, AlarmPayload(alarm), now)]
      ensures Step(State(), events[|old(events)|..]) == old(State()).Trigger(alarm, now)
    {
      if alarmActive {
        return;
      }
      alarmActive := true;
      snoozeCount := 0;
      var event := NewEvent(AlarmTriggered, AlarmPayload(alarm), None, now);
      events := events + [event];
    }

    method HandleSnooze(connectedNodesCount: nat, now: Micros)
      modifies this
      ensures old(Valid()) ==> Valid()
      ensures old(events) <= events
      ensures !old(alarmActive) ==> State() == old(State()) && events == old(events)
      ensures old(alarmActive) && old(snoozeCount) + 1 < connectedNodesCount + 1 ==>
        State() == old(State()).(snoozeCount := old(snoozeCount) + 1) && events == old(events)
      ensures old(alarmActive) && old(snoozeCount) + 1 >= connectedNodesCount + 1 ==>
        State() == Idle && events == old(events) + [AlarmEvent(AlarmCleared, EmptyPayload, now)]
      ensures Step(State(), events[|old(events)|..]) == old(State()).Snooze(connectedNodesCount, now)
    {
      if !alarmActive {
        return;
      }
      snoozeCount := snoozeCount + 1;
      var totalDevices := connectedNodesCount + 1;
      if snoozeCount >= totalDevices {
        alarmActive := false;
        currentAlarm := None;
        snoozeCount := 0;
        var event := NewEvent(AlarmCleared, EmptyPayload, None, now);
        events := events + [event];
      }
    }

    /** handle_snooze(addr, count) as src/host/app.py:75 calls it: the
        address lands in connected_nodes_count. raised reports the TypeError
        that escapes to the caller. */
    method HandleSnoozeNonNumeric() returns (raised: bool)
      modifies this
      ensures old(Valid()) ==> Valid()
      ensures old(events) <= events
      ensures !old(alarmActive) ==> !raised && State() == old(State()) && events == old(events)
      ensures old(alarmActive) ==>
        raised && State() == old(State()).(snoozeCount := old(snoozeCount) + 1) && events == old(events)
      ensures (Step(State(), events[|old(events)|..]), raised) == old(State()).SnoozeNonNumeric()
    {
      assert events[|events|..] == [];
      if !alarmActive {
        return false;
      }
      snoozeCount := snoozeCount + 1;
      raised := true;
    }

    method IsAlarmActive() returns (active: bool)
      ensures active == alarmActive
    {
      active := alarmActive;
    }

    method GetCurrentAlarm() returns (alarm: Option<Alarm>)
      ensures alarm == currentAlarm
    {
      alarm := currentAlarm;
    }
  }
}
