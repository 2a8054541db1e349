/** The wire vocabulary shared by host and nodes: the event types, the
    12-hour Alarm value and its conversions, and the AlarmEvent record with
    its dictionary (JSON object) form. */
module Protocol {
  import opened Wrappers
  import opened Text

  /** An instant on the device's local clock, in whole microseconds. */
  type Micros = int

  const MicrosPerSecond: int := 1_000_000
  const MicrosPerDay: int := 86_400 * MicrosPerSecond

  /** Midnight of the local day that contains now. */
  function DayStart(now: Micros): (d: Micros)
    ensures d <= now < d + MicrosPerDay && d % MicrosPerDay == 0
  {
    now - now % MicrosPerDay
  }

  /** The offset of hh:mm:00 from midnight. */
  function TimeOfDay(hour24: int, minute: int): (off: int)
    requires 0 <= hour24 <= 23 && 0 <= minute <= 59
    ensures 0 <= off < MicrosPerDay
  {
    (hour24 * 3600 + minute * 60) * MicrosPerSecond
  }

  // ---------------------------------------------------------------------
  // Event types
  // ---------------------------------------------------------------------

  datatype EventType = AlarmSet | AlarmTriggered | AlarmCleared | Heartbeat | SnoozePressed | Ack

  /** The enum's auto() value: 1 to 6 in declaration order. */
  function TypeValue(t: EventType): (v: int)
    ensures 1 <= v <= 6
  {
    match t
    case AlarmSet => 1
    case AlarmTriggered => 2
    case AlarmCleared => 3
    case Heartbeat => 4
    case SnoozePressed => 5
    case Ack => 6
  }

  /** EventType(v): the member with value v; None stands for ValueError. */
  function TypeOfValue(v: int): (r: Option<EventType>)
    ensures r.Some? <==> 1 <= v <= 6
    ensures r.Some? ==> TypeValue(r.value) == v
  {
    if v == 1 then Some(AlarmSet)
    else if v == 2 then Some(AlarmTriggered)
    else if v == 3 then Some(AlarmCleared)
    else if v == 4 then Some(Heartbeat)
    else if v == 5 then Some(SnoozePressed)
    else if v == 6 then Some(Ack)
    else None
  }

  /** Looking a type up by its own value gives it back, so values are distinct. */
  lemma TypeValueRoundTrip(t: EventType)
    ensures TypeOfValue(TypeValue(t)) == Some(t)
  {
  }

  // ---------------------------------------------------------------------
  // Dictionary values (what json.loads yields and json.dumps consumes)
  // ---------------------------------------------------------------------

  datatype Value =
    | VNull
    | VBool(b: bool)
    | VInt(i: int)
    | VStr(s: string)
    | VObject(fields: map<string, Value>)

  // ---------------------------------------------------------------------
  // Alarm
  // ---------------------------------------------------------------------

  datatype AlarmFields = AlarmFields(hours: int, minutes: int, isPm: bool) {
    /** The range check of __post_init__. */
    predicate Valid() { 1 <= hours <= 12 && 0 <= minutes <= 59 }
  }

  /** An Alarm object: construction only succeeds on valid fields. */
  type Alarm = a: AlarmFields | a.Valid() witness AlarmFields(12, 0, false)

  datatype AlarmError =
    | MissingKey(key: string)        // KeyError from data[key]
    | WrongType(key: string)         // TypeError from comparing a non-int
    | HoursOutOfRange(hours: int)    // ValueError, hours checked first
    | MinutesOutOfRange(minutes: int)

  /** Alarm(hours, minutes, is_pm): hours are validated before minutes. */
  function NewAlarm(hours: int, minutes: int, isPm: bool): (r: Result<Alarm, AlarmError>)
    ensures r.Success? <==> 1 <= hours <= 12 && 0 <= minutes <= 59
    ensures r.Success? ==> r.value == AlarmFields(hours, minutes, isPm)
    ensures !(1 <= hours <= 12) ==> r == Failure(HoursOutOfRange(hours))
    ensures 1 <= hours <= 12 && !(0 <= minutes <= 59) ==> r == Failure(MinutesOutOfRange(minutes))
  {
    if !(1 <= hours <= 12) then Failure(HoursOutOfRange(hours))
    else if !(0 <= minutes <= 59) then Failure(MinutesOutOfRange(minutes))
    else Success(AlarmFields(hours, minutes, isPm))
  }

  /** to_dict */
  function AlarmToDict(a: Alarm): map<string, Value>
  {
    map["hours" := VInt(a.hours), "minutes" := VInt(a.minutes), "is_pm" := VBool(a.isPm)]
  }

  /** from_dict: reads "hours" and "minutes" (KeyError when absent), "is_pm"
      with default False, then validates as the constructor does. */
  function AlarmFromDict(d: map<string, Value>): (r: Result<Alarm, AlarmError>)
    ensures r.Success? ==> "hours" in d && d["hours"] == VInt(r.value.hours)
    ensures r.Success? ==> "minutes" in d && d["minutes"] == VInt(r.value.minutes)
    ensures r.Success? ==> (r.value.isPm <==> "is_pm" in d && d["is_pm"] == VBool(true))
  {
    if "hours" !in d then Failure(MissingKey("hours"))
    else if "minutes" !in d then Failure(MissingKey("minutes"))
    else if !d["hours"].VInt? then Failure(WrongType("hours"))
    else if !(1 <= d["hours"].i <= 12) then Failure(HoursOutOfRange(d["hours"].i))
    else if !d["minutes"].VInt? then Failure(WrongType("minutes"))
    else
      var isPm := if "is_pm" in d then d["is_pm"] else VBool(false);
      if !isPm.VBool? then Failure(WrongType("is_pm"))
      else NewAlarm(d["hours"].i, d["minutes"].i, isPm.b)
  }

  /** from_dict(to_dict(a)) == a */
  lemma AlarmDictRoundTrip(a: Alarm)
    ensures AlarmFromDict(AlarmToDict(a)) == Success(a)
  {
  }

  /** Without an "is_pm" key, from_dict builds an AM alarm. */
  lemma AlarmFromDictDefaultsToAm(hours: int, minutes: int)
    requires 1 <= hours <= 12 && 0 <= minutes <= 59
    ensures AlarmFromDict(map["hours" := VInt(hours), "minutes" := VInt(minutes)])
         == Success(AlarmFields(hours, minutes, false))
  {
  }

  /** get_24hr_time: the 24-hour clock hour and the unchanged minute. The hour
      is in the morning half exactly for AM, and agrees with the 12-hour hour
      modulo 12 (so 12 AM is hour 0 and 12 PM is hour 12). */
  function Hour24(a: Alarm): (r: (int, int))
    ensures 0 <= r.0 <= 23 && r.1 == a.minutes
    ensures r.0 < 12 <==> !a.isPm
    ensures r.0 % 12 == a.hours % 12
  {
    if a.isPm then
      if a.hours == 12 then (12, a.minutes) else (a.hours + 12, a.minutes)
    else
      if a.hours == 12 then (0, a.minutes) else (a.hours, a.minutes)
  }

  /** Distinct alarms have distinct 24-hour times. */
  lemma Hour24Injective(a: Alarm, b: Alarm)
    requires a != b
    ensures Hour24(a) != Hour24(b)
  {
  }

  lemma DayMultiple(k: int, off: int)
    requires 0 <= off < MicrosPerDay
    ensures (k * MicrosPerDay + off) % MicrosPerDay == off
  {
  }

  /** An offset within the day from a midnight d, today or tomorrow. */
  lemma DayOffset(d: Micros, off: int)
    requires d % MicrosPerDay == 0 && 0 <= off < MicrosPerDay
    ensures (d + off) % MicrosPerDay == off && DayStart(d + off) == d
    ensures (d + MicrosPerDay + off) % MicrosPerDay == off
  {
    var k := d / MicrosPerDay;
    assert d == k * MicrosPerDay;
    DayMultiple(k, off);
    assert d + MicrosPerDay == (k + 1) * MicrosPerDay;
    DayMultiple(k + 1, off);
  }

  /** get_next_trigger_time: today's hh:mm:00 if it is still ahead of now,
      else the same time tomorrow. */
  function NextTrigger(a: Alarm, now: Micros): (t: Micros)
    ensures now < t <= now + MicrosPerDay
    ensures t % MicrosPerDay == TimeOfDay(Hour24(a).0, Hour24(a).1)
  {
    var (hour24, minute) := Hour24(a);
    var today := DayStart(now) + TimeOfDay(hour24, minute);
    DayOffset(DayStart(now), TimeOfDay(hour24, minute));
    if today <= now then today + MicrosPerDay else today
  }

  /** __str__: "H:MM AM" or "H:MM PM". */
  function AlarmText(a: Alarm): string
  {
    ClockText(a.hours, a.minutes, a.isPm)
  }

  /** The alarm text reads back as the alarm: the hour unpadded, the minute
      as two digits, then the period. */
  lemma AlarmTextRoundTrip(a: Alarm)
    ensures ParseClockText(AlarmText(a)) == Some((a.hours, a.minutes, a.isPm))
    ensures 7 <= |AlarmText(a)| <= 8
  {
    ClockTextRoundTrip(a.hours, a.minutes, a.isPm);
    DecimalTextLength(a.hours);
  }

  // ---------------------------------------------------------------------
  // AlarmEvent
  // ---------------------------------------------------------------------

  datatype AlarmEvent = AlarmEvent(eventType: EventType, data: Value, timestamp: Micros)

  /** AlarmEvent(type, data, timestamp): a missing timestamp becomes the
      current time, a given one is kept. A missing data is VNull. */
  function NewEvent(t: EventType, data: Value, timestamp: Option<Micros>, now: Micros): (e: AlarmEvent)
    ensures e.eventType == t && e.data == data
    ensures timestamp.None? ==> e.timestamp == now
    ensures timestamp.Some? ==> e.timestamp == timestamp.value
  {
    match timestamp
    case None => AlarmEvent(t, data, now)
    case Some(ts) => AlarmEvent(t, data, ts)
  }

  /** The payload an alarm-carrying event sends: {"alarm": alarm.to_dict()}. */
  function AlarmPayload(a: Alarm): Value
  {
    VObject(map["alarm" := VObject(AlarmToDict(a))])
  }

  const EventFields: set<string> := {"type", "data", "timestamp"}

  /** to_json before serialisation: asdict(self) with the type replaced by its value. */
  function EventToPayload(e: AlarmEvent): Value
  {
    VObject(map["type" := VInt(TypeValue(e.eventType)), "data" := e.data, "timestamp" := VInt(e.timestamp)])
  }

  datatype ProtocolError =
    | Malformed                      // json.loads failed
    | NotAnObject                    // raw["type"] on a non-object
    | MissingType                    // KeyError on raw["type"]
    | UnknownType(t: Value)          // EventType(raw["type"]) raised ValueError
    | UnexpectedFields(keys: set<string>)  // AlarmEvent(**raw) rejects unknown keywords
    | BadTimestamp(ts: Value)        // a timestamp that is neither null nor a number

  /** EventType(raw["type"]): the lookup by value, where True equals 1 and
      so finds ALARM_SET, and False equals 0 and finds nothing. */
  function TypeOfJsonValue(v: Value): (r: Option<EventType>)
    ensures v.VInt? ==> r == TypeOfValue(v.i)
    ensures v.VBool? ==> (r.Some? <==> v.b) && (v.b ==> r == Some(AlarmSet))
    ensures !v.VInt? && !v.VBool? ==> r.None?
  {
    match v
    case VInt(i) => TypeOfValue(i)
    case VBool(b) => if b then TypeOfValue(1) else TypeOfValue(0)
    case _ => None
  }

  /** from_json after parsing: the type is looked up by value, then the
      dataclass is built from the keywords, so data and timestamp default to
      None and any other key is refused. */
  function EventFromPayload(raw: Value, now: Micros): (r: Result<AlarmEvent, ProtocolError>)
    ensures r.Success? ==>
      raw.VObject? && "type" in raw.fields && TypeOfJsonValue(raw.fields["type"]) == Some(r.value.eventType)
    ensures r.Success? ==> raw.fields.Keys <= EventFields
  {
    if !raw.VObject? then Failure(NotAnObject)
    else
      var f := raw.fields;
      if "type" !in f then Failure(MissingType)
      else if TypeOfJsonValue(f["type"]).None? then Failure(UnknownType(f["type"]))
      else if f.Keys - EventFields != {} then Failure(UnexpectedFields(f.Keys - EventFields))
      else
        var t := TypeOfJsonValue(f["type"]).value;
        var data := if "data" in f then f["data"] else VNull;
        var ts := if "timestamp" in f then f["timestamp"] else VNull;
        if ts.VNull? then Success(NewEvent(t, data, None, now))
        else if ts.VInt? then Success(NewEvent(t, data, Some(ts.i), now))
        else Failure(BadTimestamp(ts))
  }

  /** Building an event from its own payload gives the same event back,
      whatever the receiver's clock says. */
  lemma EventPayloadRoundTrip(e: AlarmEvent, now: Micros)
    ensures EventFromPayload(EventToPayload(e), now) == Success(e)
  {
    var f := EventToPayload(e).fields;
    assert f.Keys == EventFields;
    TypeValueRoundTrip(e.eventType);
  }

  /** A payload whose type is true decodes as ALARM_SET, and one whose type
      is false is refused, as EventType's lookup by value does. */
  lemma BooleanTypeValues(now: Micros)
    ensures EventFromPayload(VObject(map["type" := VBool(true)]), now)
         == Success(AlarmEvent(AlarmSet, VNull, now))
    ensures EventFromPayload(VObject(map["type" := VBool(false)]), now)
         == Failure(UnknownType(VBool(false)))
  {
    var f := map["type" := VBool(true)];
    assert f.Keys - EventFields == {};
  }

  /** A payload without a timestamp is stamped with the receiver's now. */
  lemma EventWithoutTimestampGetsNow(t: EventType, now: Micros)
    ensures EventFromPayload(VObject(map["type" := VInt(TypeValue(t))]), now)
         == Success(AlarmEvent(t, VNull, now))
  {
    TypeValueRoundTrip(t);
  }

  /** The JSON text layer (json.dumps and json.loads), which is not modelled;
      loads yields None where it would raise. */
  datatype Json = Json(dumps: Value -> string, loads: string -> Option<Value>)

  /** What the modelled code relies on from the JSON layer: loads undoes dumps,
      and dumps never writes a raw newline. */
  ghost predicate SoundJson(j: Json)
  {
    forall v :: j.loads(j.dumps(v)) == Some(v) && '\n' !in j.dumps(v)
  }

  /** to_json */
  function EventToJson(j: Json, e: AlarmEvent): string
  {
    j.dumps(EventToPayload(e))
  }

  /** from_json */
  function EventFromJson(j: Json, line: string, now: Micros): Result<AlarmEvent, ProtocolError>
  {
    match j.loads(line)
    case None => Failure(Malformed)
    case Some(raw) => EventFromPayload(raw, now)
  }

  /** from_json(to_json(e)) == e over a sound JSON layer, and the text is one line. */
  lemma EventJsonRoundTrip(j: Json, e: AlarmEvent, now: Micros)
    requires SoundJson(j)
    ensures EventFromJson(j, EventToJson(j, e), now) == Success(e)
    ensures '\n' !in EventToJson(j, e)
  {
    EventPayloadRoundTrip(e, now);
    assert j.loads(j.dumps(EventToPayload(e))) == Some(EventToPayload(e));
  }
}
