/** The node application: its reaction to the host's events (the
    alarm_triggered flag and the LED), the same newline framing on its
    receive loop, and the rule for sending a snooze. */
module NodeApp {
  import opened Wrappers
  import opened Protocol
  import opened Framing

  /** What the LED shows; with no LED controller nothing changes. */
  datatype Led = Off | On | Blinking

  /** node.alarm_triggered and the LED. */
  datatype Indicators = Indicators(triggered: bool, led: Led)

  /** The dispatch in handle_events: ALARM_SET lights the LED, ALARM_TRIGGERED
      raises the flag and blinks, ALARM_CLEARED lowers it and turns the LED
      off; every other type changes nothing. */
  function React(s: Indicators, hasLed: bool, t: EventType): (r: Indicators)
    ensures t == AlarmSet ==> r.triggered == s.triggered
    ensures t == AlarmTriggered ==> r.triggered
    ensures t == AlarmCleared ==> !r.triggered
    ensures !hasLed ==> r.led == s.led
    ensures hasLed && t == AlarmSet ==> r.led == On
    ensures hasLed && t == AlarmTriggered ==> r.led == Blinking
    ensures hasLed && t == AlarmCleared ==> r.led == Off
    ensures t in {Heartbeat, SnoozePressed, Ack} ==> r == s
  {
    match t
    case AlarmSet => if hasLed then s.(led := On) else s
    case AlarmTriggered => Indicators(true, if hasLed then Blinking else s.led)
    case AlarmCleared => Indicators(false, if hasLed then Off else s.led)
    case _ => s
  }

  /** The events of one read, handled in order. */
  function ReactAll(s: Indicators, hasLed: bool, events: seq<AlarmEvent>): Indicators
    decreases |events|
  {
    if events == [] then s
    else ReactAll(React(s, hasLed, events[0].eventType), hasLed, events[1..])
  }

  predicate ChangesIndicators(e: AlarmEvent)
  {
    e.eventType in {AlarmSet, AlarmTriggered, AlarmCleared}
  }

  /** Only ALARM_SET, ALARM_TRIGGERED and ALARM_CLEARED matter to the node:
      dropping every other event from a read leaves the outcome the same. */
  lemma {:induction false} OtherEventsAreIgnored(s: Indicators, hasLed: bool, events: seq<AlarmEvent>)
    ensures ReactAll(s, hasLed, events) == ReactAll(s, hasLed, Filter(events))
    decreases |events|
  {
    if events != [] {
      OtherEventsAreIgnored(React(s, hasLed, events[0].eventType), hasLed, events[1..]);
      if ChangesIndicators(events[0]) {
        assert Filter(events) == [events[0]] + Filter(events[1..]);
        assert Filter(events)[1..] == Filter(events[1..]);
      }
    }
  }

  function Filter(events: seq<AlarmEvent>): (r: seq<AlarmEvent>)
    ensures forall k :: 0 <= k < |r| ==> ChangesIndicators(r[k])
    decreases |events|
  {
    if events == [] then []
    else if ChangesIndicators(events[0]) then [events[0]] + Filter(events[1..])
    else Filter(events[1..])
  }

  lemma {:induction false} ReactAllAppend(s: Indicators, hasLed: bool, p: seq<AlarmEvent>, q: seq<AlarmEvent>)
    ensures ReactAll(s, hasLed, p + q) == ReactAll(ReactAll(s, hasLed, p), hasLed, q)
    decreases |p|
  {
    if p == [] {
      assert p + q == q;
    } else {
      assert (p + q)[0] == p[0] && (p + q)[1..] == p[1..] + q;
      ReactAllAppend(React(s, hasLed, p[0].eventType), hasLed, p[1..], q);
    }
  }

  lemma ReactAllSnoc(s: Indicators, hasLed: bool, p: seq<AlarmEvent>, e: AlarmEvent)
    ensures ReactAll(s, hasLed, p + [e]) == React(ReactAll(s, hasLed, p), hasLed, e.eventType)
  {
    ReactAllAppend(s, hasLed, p, [e]);
    assert [e][1..] == [];
  }

  /** After a read whose last event is ALARM_TRIGGERED the node is ringing,
      and after one whose last is ALARM_CLEARED it is not, whatever came before. */
  lemma LastEventDecides(s: Indicators, hasLed: bool, events: seq<AlarmEvent>)
    requires events != []
    ensures events[|events| - 1].eventType == AlarmTriggered ==> ReactAll(s, hasLed, events).triggered
    ensures events[|events| - 1].eventType == AlarmCleared ==> !ReactAll(s, hasLed, events).triggered
  {
    var init, last := events[..|events| - 1], events[|events| - 1];
    assert events == init + [last];
    ReactAllAppend(s, hasLed, init, [last]);
    assert [last][1..] == [];
  }

  /** The event button_monitor sends: SNOOZE_PRESSED with {"node": "client"}. */
  function SnoozeEvent(now: Micros): AlarmEvent
  {
    NewEvent(SnoozePressed, VObject(map["node" := VStr("client")]), None, now)
  }

  class Node {
    var alarmTriggered: bool
    var led: Led
    /** Whether the LED controller was initialised (led is not None). */
    const hasLed: bool
    /** Whether the snooze button was initialised. */
    const hasButton: bool
    /** Every event passed to node.send, oldest first. */
    var outbox: seq<AlarmEvent>

    function Shown(): Indicators
      reads this
    {
      Indicators(alarmTriggered, led)
    }

    constructor (hasLed: bool, hasButton: bool)
      ensures this.hasLed == hasLed && this.hasButton == hasButton
      ensures Shown() == Indicators(false, Off) && outbox == []
    {
      alarmTriggered, led := false, Off;
      this.hasLed, this.hasButton := hasLed, hasButton;
      outbox := [];
    }

    /** The body of the inner loop of handle_events for one decoded event. */
    method HandleEvent(event: AlarmEvent)
      modifies this`alarmTriggered, this`led
      ensures Shown() == React(old(Shown()), hasLed, event.eventType)
    {
      if event.eventType == AlarmSet {
        if hasLed {
          led := On;
        }
      } else if event.eventType == AlarmTriggered {
        alarmTriggered := true;
        if hasLed {
          led := Blinking;
        }
      } else if event.eventType == AlarmCleared {
        alarmTriggered := false;
        if hasLed {
          led := Off;
        }
      }
    }

    /** One pass of handle_events' outer loop on the chunk data: an empty
        read ends the loop; otherwise the complete lines are decoded and
        handled in arrival order, and a line that fails to decode ends the
        loop after the ones before it were handled. */
    method Receive(j: Json, buffer: string, data: string, now: Micros) returns (rest: string, open: bool)
      modifies this`alarmTriggered, this`led
      ensures data == "" ==> !open && rest == buffer && Shown() == old(Shown())
      ensures data != "" ==>
        var decoded := DecodePrefix(j, SplitLines(buffer + data).0, now);
        && rest == SplitLines(buffer + data).1 && NoNewline(rest)
        && open == decoded.1
        && Shown() == ReactAll(old(Shown()), hasLed, decoded.0)
    {
      if data == "" {
        return buffer, false;
      }
      var packets;
      packets, rest := SplitPackets(buffer + data);
      open := HandleLines(j, packets, now);
    }

    /** The inner "while '\n' in buffer" loop after the split. */
    method HandleLines(j: Json, packets: seq<string>, now: Micros) returns (open: bool)
      modifies this`alarmTriggered, this`led
      ensures open == DecodePrefix(j, packets, now).1
      ensures Shown() == ReactAll(old(Shown()), hasLed, DecodePrefix(j, packets, now).0)
    {
      ghost var start := Shown();
      ghost var decoded: seq<AlarmEvent> := [];
      var i := 0;
      open := true;
      while i < |packets| && open
        invariant 0 <= i <= |packets|
        invariant DecodePrefix(j, packets[..i], now) == (decoded, open)
        invariant Shown() == ReactAll(start, hasLed, decoded)
        decreases |packets| - i
      {
        assert packets[..i + 1] == packets[..i] + [packets[i]];
        DecodePrefixSnoc(j, packets[..i], packets[i], now);
        var result := EventFromJson(j, packets[i], now);
        if result.Failure? {
          open := false;
        } else {
          ReactAllSnoc(start, hasLed, decoded, result.value);
          HandleEvent(result.value);
          decoded := decoded + [result.value];
        }
        i := i + 1;
      }
      if open {
        assert packets[..i] == packets;
      } else {
        assert packets == packets[..i] + packets[i..];
        DecodePrefixStops(j, packets[..i], packets[i..], now);
      }
    }

    /** button_monitor, one poll: a snooze goes to the host only while the
        alarm is triggered and a present button reads pressed. */
    method ButtonPoll(pressed: bool, now: Micros)
      modifies this`outbox
      ensures outbox == if alarmTriggered && hasButton && pressed then old(outbox) + [SnoozeEvent(now)] else old(outbox)
    {
      if alarmTriggered && hasButton {
        if pressed {
          var snooze := NewEvent(SnoozePressed, VObject(map["node" := VStr("client")]), None, now);
          outbox := outbox + [snooze];
        }
      }
    }
  }
}
