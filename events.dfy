/**
 * The `Event` value of event_manager.py: its fields, its dictionary form
 * (the shape written to and read from events.json), the instant it falls
 * on, its display time and the desktop notification raised for it.
 */
module Events {
  import opened Text
  import opened DateTimes

  /**
   * One calendar entry. `date` is meant to be `YYYY-MM-DD` and `time` `HH:MM`
   * or `""` for an all-day event, but nothing enforces either: a stored event
   * may hold any strings, and the operations below say what happens then.
   */
  datatype Event = Event(
    id: string,
    title: string,
    date: string,
    time: string,
    description: string,
    notify: bool,
    notifyMinutesBefore: int,
    notified: bool)

  /**
   * `Event(title, date, time, description, notify, notify_minutes_before, event_id)`.
   * `freshId` stands for `str(uuid.uuid4())`, which is used when `event_id` is
   * missing or empty (both are false in `event_id or ...`).
   */
  function NewEvent(title: string, date: string, time: string, description: string,
                    notify: bool, notifyMinutesBefore: int,
                    eventId: Option<string>, freshId: string): (e: Event)
    ensures eventId.Some? && eventId.value != "" ==> e.id == eventId.value
    ensures eventId.None? || eventId.value == "" ==> e.id == freshId
    ensures !e.notified
  {
    var id := if eventId.Some? && eventId.value != "" then eventId.value else freshId;
    Event(id, title, date, time, description, notify, notifyMinutesBefore, false)
  }

  // ---------------------------------------------------------------------
  // Dictionary form
  // ---------------------------------------------------------------------

  /** The JSON values a field can hold. */
  datatype Value = Null | Bool(b: bool) | Int(i: int) | Str(s: string)

  type Payload = map<string, Value>

  const FieldNames: set<string> :=
    {"id", "title", "date", "time", "description", "notify", "notify_minutes_before", "notified"}

  /** `event.to_dict()`. */
  function ToDict(e: Event): (d: Payload)
    ensures d.Keys == FieldNames
  {
    map[
      "id" := Str(e.id),
      "title" := Str(e.title),
      "date" := Str(e.date),
      "time" := Str(e.time),
      "description" := Str(e.description),
      "notify" := Bool(e.notify),
      "notify_minutes_before" := Int(e.notifyMinutesBefore),
      "notified" := Bool(e.notified)]
  }

  /** `data.get(key, default)` for a string field. */
  function GetString(data: Payload, key: string, default: string): (r: string)
  {
    if key in data && data[key].Str? then data[key].s else default
  }

  function GetBool(data: Payload, key: string, default: bool): (r: bool)
  {
    if key in data && data[key].Bool? then data[key].b else default
  }

  function GetInt(data: Payload, key: string, default: int): (r: int)
  {
    if key in data && data[key].Int? then data[key].i else default
  }

  /** `data.get("id")`: the stored identifier, or nothing when absent or `null`. */
  function GetId(data: Payload): (r: Option<string>)
  {
    if "id" in data && data["id"].Str? then Some(data["id"].s) else None
  }

  /** `Event.from_dict(data)`; `freshId` is the identifier generated when the payload has none. */
  function FromDict(data: Payload, freshId: string): (e: Event)
    ensures "title" in data && data["title"].Str? ==> e.title == data["title"].s
    ensures "date" in data && data["date"].Str? ==> e.date == data["date"].s
    ensures "time" in data && data["time"].Str? ==> e.time == data["time"].s
    ensures "description" in data && data["description"].Str? ==> e.description == data["description"].s
    ensures "notify" in data && data["notify"].Bool? ==> e.notify == data["notify"].b
    ensures "notify_minutes_before" in data && data["notify_minutes_before"].Int? ==>
              e.notifyMinutesBefore == data["notify_minutes_before"].i
    ensures "notified" in data && data["notified"].Bool? ==> e.notified == data["notified"].b
    ensures "title" !in data ==> e.title == ""
    ensures "date" !in data ==> e.date == ""
    ensures "time" !in data ==> e.time == ""
    ensures "description" !in data ==> e.description == ""
    ensures "notify" !in data ==> e.notify
    ensures "notify_minutes_before" !in data ==> e.notifyMinutesBefore == 0
    ensures "notified" !in data ==> !e.notified
    ensures "id" !in data || data["id"] == Null || data["id"] == Str("") ==> e.id == freshId
    ensures "id" in data && data["id"].Str? && data["id"].s != "" ==> e.id == data["id"].s
  {
    var e := NewEvent(
      GetString(data, "title", ""),
      GetString(data, "date", ""),
      GetString(data, "time", ""),
      GetString(data, "description", ""),
      GetBool(data, "notify", true),
      GetInt(data, "notify_minutes_before", 0),
      GetId(data),
      freshId);
    e.(notified := GetBool(data, "notified", false))
  }

  /** Saving and loading an event gives it back unchanged, identifier and `notified` flag included. */
  lemma FromDictToDict(e: Event, freshId: string)
    requires e.id != ""
    ensures FromDict(ToDict(e), freshId) == e
  {
  }

  // ---------------------------------------------------------------------
  // Instant and display time
  // ---------------------------------------------------------------------

  /** Parsing `date + " " + time` succeeds exactly when both halves parse on their own. */
  lemma ParseJoined(date: string, time: string)
    ensures ParseDateTime(date + " " + time).Some? <==> ParseDate(date).Some? && ParseTime(time).Some?
    ensures ParseDateTime(date + " " + time).Some? ==>
              ParseDateTime(date + " " + time).value == DateTime(ParseDate(date).value, ParseTime(time).value)
  {
    var s := date + " " + time;
    if ParseDate(date).Some? && ParseTime(time).Some? {
      assert s[..10] == date && s[11..] == time;
    }
    if ParseDateTime(s).Some? {
      var d, t := s[..10], s[11..];
      assert forall k | 0 <= k < 4 :: s[k] == d[..4][k];
      assert forall k | 5 <= k < 7 :: s[k] == d[5..7][k - 5];
      assert forall k | 8 <= k < 10 :: s[k] == d[8..][k - 8];
      assert forall k | 11 <= k < 13 :: s[k] == t[..2][k - 11];
      assert forall k | 14 <= k < 16 :: s[k] == t[3..][k - 14];
      assert s[|date|] == ' ';
      assert |date| == 10;
      assert d == date && t == time;
    }
  }

  /**
   * `event.get_datetime()`: midnight of `date` for an all-day event, `date`
   * at `time` otherwise; `None` when either does not parse.
   */
  function GetDateTime(e: Event): (r: Option<DateTime>)
    ensures r.Some? <==> ParseDate(e.date).Some? && (e.time == "" || ParseTime(e.time).Some?)
    ensures r.Some? ==> ValidDateTime(r.value) && r.value.date == ParseDate(e.date).value
    ensures r.Some? && e.time == "" ==> r.value.minute == 0
    ensures r.Some? && e.time != "" ==> r.value.minute == ParseTime(e.time).value
  {
    if e.time != "" then
      ParseJoined(e.date, e.time);
      ParseDateTime(e.date + " " + e.time)
    else
      match ParseDate(e.date)
      case Some(d) => Some(DateTime(d, 0))
      case None => None
  }

  /** `event.get_display_time()`: "All day" without a time, the raw text when it does not parse. */
  function GetDisplayTime(e: Event): (s: string)
    ensures e.time == "" ==> s == "All day"
    ensures e.time != "" && ParseTime(e.time).None? ==> s == e.time
    ensures ParseTime(e.time).Some? ==> |s| == 8 && s[2] == ':' && s[5] == ' '
  {
    if e.time != "" then
      match ParseTime(e.time)
      case Some(t) => Clock12(t)
      case None => e.time
    else
      "All day"
  }

  /** Two events whose times parse show the same display time only when their times are equal. */
  lemma DisplayTimeFaithful(a: Event, b: Event)
    requires ParseTime(a.time).Some? && ParseTime(b.time).Some?
    requires GetDisplayTime(a) == GetDisplayTime(b)
    ensures a.time == b.time
  {
    Clock12Injective(ParseTime(a.time).value, ParseTime(b.time).value);
    FormatParseTime(a.time);
    FormatParseTime(b.time);
  }

  // ---------------------------------------------------------------------
  // Desktop notification
  // ---------------------------------------------------------------------

  /** A desktop notification handed to the application: its replacement key, title and body. */
  datatype Notice = Notice(key: string, title: string, body: string)

  /**
   * The characters event_manager.py puts before the time: the UTF-8 bytes of a
   * calendar emoji decoded as Windows-1252, exactly as they stand in that file.
   */
  const CalendarMark: string := "\U{F0}\U{178}\U{201C}\U{2026}"

  /** The notification `_send_notification` builds for `e`. */
  function NoticeFor(e: Event): (n: Notice)
    ensures n.key == "event-" + e.id && n.title == e.title
  {
    var message := CalendarMark + " " + (if e.time != "" then GetDisplayTime(e) else "Today");
    var body := if e.description != "" then message + "\n" + e.description else message;
    Notice("event-" + e.id, e.title, body)
  }

  /**
   * The body opens with the calendar mark and then the display time, or
   * "Today" for an all-day event; a description follows on its own line.
   */
  lemma NoticeBody(e: Event)
    ensures var body := NoticeFor(e).body;
            var when := if e.time != "" then GetDisplayTime(e) else "Today";
            && |body| == |CalendarMark| + 1 + |when| + (if e.description != "" then 1 + |e.description| else 0)
            && body[..|CalendarMark| + 1] == CalendarMark + " "
            && body[|CalendarMark| + 1..|CalendarMark| + 1 + |when|] == when
            && (e.description != "" ==> body[|CalendarMark| + 1 + |when|..] == "\n" + e.description)
  {
    var when := if e.time != "" then GetDisplayTime(e) else "Today";
    var message := CalendarMark + " " + when;
    var body := NoticeFor(e).body;
    assert body[..|message|] == message;
    assert message[..|CalendarMark| + 1] == CalendarMark + " ";
    assert message[|CalendarMark| + 1..] == when;
  }

  /** Notifications of different events never replace each other. */
  lemma NoticeKeysDistinct(a: Event, b: Event)
    requires a.id != b.id
    ensures NoticeFor(a).key != NoticeFor(b).key
  {
    var ka, kb := NoticeFor(a).key, NoticeFor(b).key;
    assert ka[6..] == a.id && kb[6..] == b.id;
  }
}
