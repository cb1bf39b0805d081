/**
 * The logic of event_dialog.py that does not draw anything: the reminder
 * choices of the add/edit dialog, the time string built from its spinners,
 * what saving the dialog does to the store, the order in which a day's
 * events are listed, and how the all-events view splits dates into upcoming
 * and past sections.
 */
module Dialogs {
  import opened Text
  import opened DateTimes
  import opened Events
  import opened Store
  import opened Sorting

  // ---------------------------------------------------------------------
  // Reminder choices
  // ---------------------------------------------------------------------

  /** The reminder drop-down's entries, top to bottom, in minutes before the event. */
  const ReminderChoices: seq<int> := [0, 5, 15, 30, 60, 1440]

  /** `_get_reminder_minutes()` for the drop-down's selected position; 0 for any other position. */
  function ReminderMinutes(selected: int): (minutes: int)
    ensures 0 <= selected < |ReminderChoices| ==> minutes == ReminderChoices[selected]
    ensures !(0 <= selected < |ReminderChoices|) ==> minutes == 0
  {
    var mapping := map[0 := 0, 1 := 5, 2 := 15, 3 := 30, 4 := 60, 5 := 1440];
    if selected in mapping then mapping[selected] else 0
  }

  /** `_get_reminder_index(minutes)`: the position showing `minutes`; 0 for a value not offered. */
  function ReminderIndex(minutes: int): (index: int)
    ensures minutes in ReminderChoices ==> 0 <= index < |ReminderChoices| && ReminderChoices[index] == minutes
    ensures minutes !in ReminderChoices ==> index == 0
  {
    var mapping := map[0 := 0, 5 := 1, 15 := 2, 30 := 3, 60 := 4, 1440 := 5];
    if minutes in mapping then mapping[minutes] else 0
  }

  /** Opening the dialog on a stored reminder and saving it unchanged keeps the reminder, when it is offered. */
  lemma ReminderRoundTrip(selected: int, minutes: int)
    ensures 0 <= selected < |ReminderChoices| ==> ReminderIndex(ReminderMinutes(selected)) == selected
    ensures minutes in ReminderChoices ==> ReminderMinutes(ReminderIndex(minutes)) == minutes
    ensures minutes !in ReminderChoices ==> ReminderMinutes(ReminderIndex(minutes)) == 0
  {
    if 0 <= selected < |ReminderChoices| {
      var m := ReminderMinutes(selected);
      var k := ReminderIndex(m);
      assert forall i, j | 0 <= i < j < |ReminderChoices| :: ReminderChoices[i] < ReminderChoices[j];
      assert ReminderChoices[k] == ReminderChoices[selected];
    }
  }

  // ---------------------------------------------------------------------
  // The time string
  // ---------------------------------------------------------------------

  /**
   * The time `_on_save` stores: `""` for an all-day event, otherwise
   * `f"{hour:02d}:{minute:02d}"`; the spinners keep the hour in 0..23 and the
   * minute in 0..59.
   */
  function TimeString(allDay: bool, hour: int, minute: int): (s: string)
    requires !allDay ==> 0 <= hour <= 23 && 0 <= minute <= 59
    ensures allDay <==> s == ""
    ensures !allDay ==> |s| == 5 && ParseTime(s) == Some(hour * 60 + minute)
  {
    if allDay then ""
    else
      var t := hour * 60 + minute;
      assert t / 60 == hour && t % 60 == minute;
      ParseFormatTime(t);
      Digits(hour, 2) + ":" + Digits(minute, 2)
  }

  /** Later spinner settings give later time strings, so listing by the string lists by the clock. */
  lemma SpinnerOrder(h1: int, m1: int, h2: int, m2: int)
    requires 0 <= h1 <= 23 && 0 <= m1 <= 59 && 0 <= h2 <= 23 && 0 <= m2 <= 59
    ensures LexLess(TimeString(false, h1, m1), TimeString(false, h2, m2)) <==> h1 * 60 + m1 < h2 * 60 + m2
  {
    var t1, t2 := h1 * 60 + m1, h2 * 60 + m2;
    var s1, s2 := TimeString(false, h1, m1), TimeString(false, h2, m2);
    FormatParseTime(s1);
    FormatParseTime(s2);
    assert FormatTime(t1) == s1 && FormatTime(t2) == s2;
    DateTimes.TimeStringOrder(t1, t2);
  }

  // ---------------------------------------------------------------------
  // Saving the add/edit dialog
  // ---------------------------------------------------------------------

  /** What the dialog's widgets hold when Save is pressed. */
  datatype Form = Form(
    title: string,
    description: string,
    allDay: bool,
    hour: int,
    minute: int,
    notify: bool,
    reminderSelected: int)

  predicate SpinnersInRange(form: Form)
  {
    !form.allDay ==> 0 <= form.hour <= 23 && 0 <= form.minute <= 59
  }

  /** The event being edited after `_on_save` has written the form into it. */
  function Edited(e: Event, form: Form): (r: Event)
    requires SpinnersInRange(form)
    ensures r.id == e.id && r.date == e.date && !r.notified
    ensures r.title == Strip(form.title) && r.description == Strip(form.description)
    ensures r.time == TimeString(form.allDay, form.hour, form.minute)
    ensures r.notify == form.notify && r.notifyMinutesBefore == ReminderMinutes(form.reminderSelected)
  {
    e.(title := Strip(form.title),
       description := Strip(form.description),
       time := TimeString(form.allDay, form.hour, form.minute),
       notify := form.notify,
       notifyMinutesBefore := ReminderMinutes(form.reminderSelected),
       notified := false)
  }

  /** The event `_on_save` creates on `date` when nothing is being edited. */
  function Created(date: string, form: Form, freshId: string): (r: Event)
    requires SpinnersInRange(form)
    ensures r.id == freshId && r.date == date && !r.notified
    ensures r.title == Strip(form.title) && r.description == Strip(form.description)
    ensures r.time == TimeString(form.allDay, form.hour, form.minute)
    ensures r.notify == form.notify && r.notifyMinutesBefore == ReminderMinutes(form.reminderSelected)
  {
    NewEvent(Strip(form.title), date, TimeString(form.allDay, form.hour, form.minute),
             Strip(form.description), form.notify, ReminderMinutes(form.reminderSelected), None, freshId)
  }

  /**
   * A saved event falls when the form says: on its date at the spinners' time,
   * or at midnight when all-day. Its reminder is armed again after an edit.
   */
  lemma SavedInstant(e: Event, form: Form, date: string, freshId: string)
    requires SpinnersInRange(form) && ParseDate(e.date).Some? && ParseDate(date).Some?
    ensures GetDateTime(Edited(e, form)).Some? && GetDateTime(Created(date, form, freshId)).Some?
    ensures GetDateTime(Edited(e, form)).value
            == DateTime(ParseDate(e.date).value, if form.allDay then 0 else form.hour * 60 + form.minute)
    ensures GetDateTime(Created(date, form, freshId)).value
            == DateTime(ParseDate(date).value, if form.allDay then 0 else form.hour * 60 + form.minute)
    ensures forall now :: IsDue(Edited(e, form), now) <==>
              form.notify && InReminderWindow(Instant(GetDateTime(Edited(e, form)).value), ReminderMinutes(form.reminderSelected), now)
  {
    FormInstant(Edited(e, form), form);
    FormInstant(Created(date, form, freshId), form);
  }

  /** An event holding the form's time string falls on its date at the spinners' time, or at midnight. */
  lemma FormInstant(x: Event, form: Form)
    requires SpinnersInRange(form) && ParseDate(x.date).Some?
    requires x.time == TimeString(form.allDay, form.hour, form.minute)
    ensures GetDateTime(x) == Some(DateTime(ParseDate(x.date).value, if form.allDay then 0 else form.hour * 60 + form.minute))
  {
    if form.allDay {
      assert x.time == "";
    } else {
      assert x.time != "" && ParseTime(x.time) == Some(form.hour * 60 + form.minute);
    }
    var r := GetDateTime(x);
    assert r.Some? && r.value.date == ParseDate(x.date).value;
  }

  /**
   * `AddEventDialog._on_save`: a blank title saves nothing; otherwise the
   * edited event replaces the stored one with its id, or a new event is
   * added on the dialog's date. Returns the event the dialog reports as saved.
   */
  method OnSave(store: EventManager, editing: Option<Event>, date: string, form: Form, freshId: string)
    returns (emitted: Option<Event>)
    requires SpinnersInRange(form)
    modifies store`events, store`saved, store`invoked
    ensures Strip(form.title) == [] ==>
              emitted.None? && store.events == old(store.events) && store.saved == old(store.saved) && store.invoked == old(store.invoked)
    ensures Strip(form.title) != [] && editing.Some? ==>
              emitted == Some(Edited(editing.value, form)) && store.events == Updated(old(store.events), emitted.value)
    ensures Strip(form.title) != [] && editing.Some? && FindIndex(old(store.events), editing.value.id).Some? ==>
              store.saved == store.events && store.invoked == old(store.invoked) + store.callbacks
    ensures Strip(form.title) != [] && editing.Some? && FindIndex(old(store.events), editing.value.id).None? ==>
              store.saved == old(store.saved) && store.invoked == old(store.invoked)
    ensures Strip(form.title) != [] && editing.None? ==>
              emitted == Some(Created(date, form, freshId)) && store.events == old(store.events) + [emitted.value]
              && store.saved == store.events && store.invoked == old(store.invoked) + store.callbacks
  {
    var title := Strip(form.title);
    if title == [] {
      return None;
    }
    if editing.Some? {
      var event := Edited(editing.value, form);
      var _ := store.UpdateEvent(event);
      return Some(event);
    } else {
      var event := Created(date, form, freshId);
      var _ := store.AddEvent(event);
      return Some(event);
    }
  }

  // ---------------------------------------------------------------------
  // Listing a day's events
  // ---------------------------------------------------------------------

  /** `(s == "", s) < (t == "", t)` as Python compares the tuples: timed before all-day, then by text. */
  predicate TimeKeyLess(s: string, t: string)
  {
    (s != "" && t == "") || ((s == "") == (t == "") && LexLess(s, t))
  }

  /** `a` may precede `b` when sorting with `key=lambda e: (e.time == "", e.time)`. */
  predicate ByTime(a: Event, b: Event)
  {
    !TimeKeyLess(b.time, a.time)
  }

  lemma LexLeIsTotalPreorder()
    ensures TotalPreorder(LexLe)
  {
    forall a: string, b: string ensures LexLe(a, b) || LexLe(b, a) {
      if LexLess(a, b) {
        LexLessAsymmetric(a, b);
      }
    }
    forall a: string, b: string, c: string | LexLe(a, b) && LexLe(b, c) ensures LexLe(a, c) {
      if LexLess(c, a) {
        LexLessTotal(a, b);
        if a != b {
          LexLessTransitive(c, a, b);
        }
      }
    }
  }

  lemma ByTimeIsTotalPreorder()
    ensures TotalPreorder(ByTime)
  {
    forall a: Event, b: Event ensures ByTime(a, b) || ByTime(b, a) {
      if LexLess(a.time, b.time) {
        LexLessAsymmetric(a.time, b.time);
      }
    }
    forall a: Event, b: Event, c: Event | ByTime(a, b) && ByTime(b, c) ensures ByTime(a, c) {
      if TimeKeyLess(c.time, a.time) {
        LexLessTotal(a.time, b.time);
        LexLessTotal(b.time, c.time);
        if LexLess(c.time, a.time) && LexLess(a.time, b.time) {
          LexLessTransitive(c.time, a.time, b.time);
        }
      }
    }
  }

  /** Two events tie under the sort key exactly when their time strings are equal. */
  lemma ByTimeTies(a: Event, b: Event)
    ensures Ties(a, b, ByTime) <==> a.time == b.time
  {
    LexLessTotal(a.time, b.time);
    if a.time == b.time {
      LexLessIrreflexive(a.time);
    }
  }

  /** The rows of a day in `EventListDialog._load_events` and `_add_date_events`. */
  function DayListing(events: seq<Event>): (r: seq<Event>)
    ensures multiset(r) == multiset(events)
  {
    StableSort(events, ByTime)
  }

  /**
   * A day's listing holds the day's events, timed ones first in `HH:MM`
   * order and all-day ones after, and events at the same time in store order.
   */
  lemma DayListingOrder(events: seq<Event>)
    ensures multiset(DayListing(events)) == multiset(events)
    ensures forall i, j | 0 <= i < j < |DayListing(events)| ::
              DayListing(events)[j].time != "" ==> DayListing(events)[i].time != ""
    ensures forall i, j | 0 <= i < j < |DayListing(events)| ::
              DayListing(events)[i].time != "" && DayListing(events)[j].time != "" ==>
                LexLe(DayListing(events)[i].time, DayListing(events)[j].time)
    ensures forall x :: TiesOf(DayListing(events), x, ByTime) == TiesOf(events, x, ByTime)
  {
    ByTimeIsTotalPreorder();
    StableSortSorted(events, ByTime);
    forall x ensures TiesOf(DayListing(events), x, ByTime) == TiesOf(events, x, ByTime) {
      StableSortStable(events, x, ByTime);
    }
  }

  // ---------------------------------------------------------------------
  // The all-events view
  // ---------------------------------------------------------------------

  /** No date occurs twice. */
  ghost predicate Distinct(s: seq<string>)
  {
    forall x :: multiset(s)[x] <= 1
  }

  lemma DistinctIndices(s: seq<string>, i: nat, j: nat)
    requires Distinct(s) && i < j < |s|
    ensures s[i] != s[j]
  {
    assert s == s[..j] + s[j..];
    assert s[i] in s[..j] && s[j] in s[j..];
    assert multiset(s)[s[j]] == multiset(s[..j])[s[j]] + multiset(s[j..])[s[j]];
  }

  /** Every earlier date sorts strictly before every later one. */
  predicate StrictlyAscending(dates: seq<string>)
  {
    forall i, j | 0 <= i < j < |dates| :: LexLess(dates[i], dates[j])
  }

  /** `[d for d in dates if d >= today]`. */
  function AtOrAfter(dates: seq<string>, today: string): (r: seq<string>)
    ensures forall d :: d in r <==> d in dates && LexLe(today, d)
  {
    if dates == [] then []
    else (if LexLe(today, dates[0]) then [dates[0]] else []) + AtOrAfter(dates[1..], today)
  }

  /** `[d for d in dates if d < today]`. */
  function Before(dates: seq<string>, today: string): (r: seq<string>)
    ensures forall d :: d in r <==> d in dates && LexLess(d, today)
  {
    if dates == [] then []
    else (if LexLess(dates[0], today) then [dates[0]] else []) + Before(dates[1..], today)
  }

  /** A date below everything in a strictly ascending list can head it. */
  lemma ConsAscending(d: string, rest: seq<string>)
    requires StrictlyAscending(rest) && forall e | e in rest :: LexLess(d, e)
    ensures StrictlyAscending([d] + rest)
  {
    forall i, j | 0 <= i < j < |[d] + rest| ensures LexLess(([d] + rest)[i], ([d] + rest)[j]) {
      assert ([d] + rest)[j] == rest[j - 1];
      if i > 0 {
        assert ([d] + rest)[i] == rest[i - 1];
      }
    }
  }

  lemma TailAscending(dates: seq<string>)
    requires dates != [] && StrictlyAscending(dates)
    ensures StrictlyAscending(dates[1..]) && forall e | e in dates[1..] :: LexLess(dates[0], e)
  {
  }

  /** Keeping the dates not before `today` keeps a strictly ascending list strictly ascending. */
  lemma {:induction false} AtOrAfterAscends(dates: seq<string>, today: string)
    requires StrictlyAscending(dates)
    ensures StrictlyAscending(AtOrAfter(dates, today))
  {
    if dates != [] {
      TailAscending(dates);
      AtOrAfterAscends(dates[1..], today);
      if LexLe(today, dates[0]) {
        ConsAscending(dates[0], AtOrAfter(dates[1..], today));
      }
    }
  }

  /** Keeping the dates before `today` keeps a strictly ascending list strictly ascending. */
  lemma {:induction false} BeforeAscends(dates: seq<string>, today: string)
    requires StrictlyAscending(dates)
    ensures StrictlyAscending(Before(dates, today))
  {
    if dates != [] {
      TailAscending(dates);
      BeforeAscends(dates[1..], today);
      if LexLess(dates[0], today) {
        ConsAscending(dates[0], Before(dates[1..], today));
      }
    }
  }

  /** `reversed(s)`. */
  function Reverse<T>(s: seq<T>): (r: seq<T>)
    ensures |r| == |s| && forall i | 0 <= i < |s| :: r[i] == s[|s| - 1 - i]
  {
    if s == [] then [] else Reverse(s[1..]) + [s[0]]
  }

  /** Reversing keeps the elements. */
  lemma ReverseElements<T>(s: seq<T>)
    ensures forall x :: x in Reverse(s) <==> x in s
  {
    var r := Reverse(s);
    forall x ensures x in r <==> x in s {
      if x in s {
        var k :| 0 <= k < |s| && s[k] == x;
        assert r[|s| - 1 - k] == x;
      }
      if x in r {
        var k :| 0 <= k < |r| && r[k] == x;
        assert s[|s| - 1 - k] == x;
      }
    }
  }

  /** Reversing a strictly ascending list makes it strictly descending. */
  lemma ReverseDescends(dates: seq<string>)
    requires StrictlyAscending(dates)
    ensures forall i, j | 0 <= i < j < |Reverse(dates)| :: LexLess(Reverse(dates)[j], Reverse(dates)[i])
  {
    var r := Reverse(dates);
    forall i, j | 0 <= i < j < |r| ensures LexLess(r[j], r[i]) {
      assert r[j] == dates[|dates| - 1 - j] && r[i] == dates[|dates| - 1 - i];
    }
  }

  /** Sorting a list of distinct dates gives the same dates, strictly ascending. */
  lemma SortedKeys(keys: seq<string>)
    requires Distinct(keys)
    ensures forall d :: d in StableSort(keys, LexLe) <==> d in keys
    ensures StrictlyAscending(StableSort(keys, LexLe))
  {
    var sorted := StableSort(keys, LexLe);
    LexLeIsTotalPreorder();
    StableSortSorted(keys, LexLe);
    forall d ensures d in sorted <==> d in keys {
      assert d in sorted <==> d in multiset(sorted);
    }
    SortedDistinctAscends(sorted);
  }

  /** A sorted list of distinct dates is strictly ascending. */
  lemma SortedDistinctAscends(dates: seq<string>)
    requires SortedBy(dates, LexLe) && Distinct(dates)
    ensures StrictlyAscending(dates)
  {
    forall i, j | 0 <= i < j < |dates| ensures LexLess(dates[i], dates[j]) {
      DistinctIndices(dates, i, j);
      LexLessTotal(dates[i], dates[j]);
    }
  }

  /** Each date with events, mapped to its events in store order. */
  ghost function Grouped(events: seq<Event>): map<string, seq<Event>>
  {
    map d | d in DatesWithEvents(events) :: EventsOnDate(events, d)
  }

  lemma EventsOnDateSnoc(events: seq<Event>, e: Event, d: string)
    ensures EventsOnDate(events + [e], d) == EventsOnDate(events, d) + (if d == e.date then [e] else [])
  {
    EventsOnDateAppend(events, [e], d);
    assert [e][1..] == [];
  }

  lemma DatesSnoc(events: seq<Event>, e: Event)
    ensures DatesWithEvents(events + [e]) == DatesWithEvents(events) + {e.date}
  {
    forall d ensures d in DatesWithEvents(events + [e]) <==> d in DatesWithEvents(events) || d == e.date {
      EventsOnDateSnoc(events, e, d);
    }
  }

  lemma GroupedKeys(events: seq<Event>)
    ensures Grouped(events).Keys == DatesWithEvents(events)
  {
  }

  lemma GroupedKeysSnoc(events: seq<Event>, e: Event)
    ensures Grouped(events + [e]).Keys == Grouped(events).Keys + {e.date}
  {
    DatesSnoc(events, e);
    GroupedKeys(events);
    GroupedKeys(events + [e]);
  }

  /** One more event joins its date's group, or opens a new group. */
  lemma GroupedSnoc(events: seq<Event>, e: Event)
    ensures Grouped(events + [e]) ==
              if e.date in Grouped(events) then Grouped(events)[e.date := Grouped(events)[e.date] + [e]]
              else Grouped(events)[e.date := [e]]
  {
    var before, after := Grouped(events), Grouped(events + [e]);
    var expected := if e.date in before then before[e.date := before[e.date] + [e]] else before[e.date := [e]];
    GroupedKeysSnoc(events, e);
    assert after.Keys == expected.Keys;
    forall d | d in after ensures after[d] == expected[d] {
      EventsOnDateSnoc(events, e, d);
      if e.date !in before && d == e.date {
        assert EventsOnDate(events, d) == [];
      }
    }
    assert after == expected;
  }

  /**
   * The grouping loop of `AllEventsDialog._load_events`: each date's events in
   * store order, and the dictionary's keys in the order dates first appear.
   */
  method GroupByDate(events: seq<Event>) returns (eventsByDate: map<string, seq<Event>>, keys: seq<string>)
    ensures forall d :: d in eventsByDate <==> d in DatesWithEvents(events)
    ensures forall d | d in eventsByDate :: eventsByDate[d] == EventsOnDate(events, d)
    ensures forall d :: d in keys <==> d in eventsByDate
    ensures Distinct(keys)
  {
    eventsByDate := map[];
    keys := [];
    for i := 0 to |events|
      invariant eventsByDate == Grouped(events[..i])
      invariant forall d :: d in keys <==> d in eventsByDate
      invariant Distinct(keys)
    {
      var event := events[i];
      assert events[..i + 1] == events[..i] + [event];
      GroupedSnoc(events[..i], event);
      if event.date in eventsByDate {
        eventsByDate := eventsByDate[event.date := eventsByDate[event.date] + [event]];
      } else {
        assert multiset(keys)[event.date] == 0;
        eventsByDate := eventsByDate[event.date := [event]];
        keys := keys + [event.date];
      }
    }
    assert events[..|events|] == events;
  }

  /** One date heading of the all-events view with the rows under it. */
  datatype Section = Section(date: string, rows: seq<Event>)

  /** `_add_date_events(date_str, events)`: the date's heading over its events listed by time. */
  function SectionOf(eventsByDate: map<string, seq<Event>>, d: string): (s: Section)
    requires d in eventsByDate
    ensures s.date == d && multiset(s.rows) == multiset(eventsByDate[d])
  {
    Section(d, DayListing(eventsByDate[d]))
  }

  /**
   * The loop over one section's dates, calling `_add_date_events` for each:
   * the heading of each date with its events listed by time.
   */
  method DateSections(eventsByDate: map<string, seq<Event>>, dates: seq<string>) returns (sections: seq<Section>)
    requires forall d | d in dates :: d in eventsByDate
    ensures |sections| == |dates|
    ensures forall k | 0 <= k < |dates| :: sections[k] == SectionOf(eventsByDate, dates[k])
  {
    sections := [];
    for k := 0 to |dates|
      invariant |sections| == k
      invariant forall n | 0 <= n < k :: sections[n] == SectionOf(eventsByDate, dates[n])
    {
      sections := sections + [SectionOf(eventsByDate, dates[k])];
    }
  }

  /** The sections of two runs of dates, one after the other. */
  lemma SectionsConcat(eventsByDate: map<string, seq<Event>>, a: seq<string>, b: seq<string>, sa: seq<Section>, sb: seq<Section>)
    requires |sa| == |a| && |sb| == |b|
    requires forall d | d in a || d in b :: d in eventsByDate
    requires forall k | 0 <= k < |a| :: sa[k] == SectionOf(eventsByDate, a[k])
    requires forall k | 0 <= k < |b| :: sb[k] == SectionOf(eventsByDate, b[k])
    ensures forall k | 0 <= k < |sa + sb| :: (sa + sb)[k] == SectionOf(eventsByDate, (a + b)[k])
  {
    forall k | 0 <= k < |sa + sb| ensures (sa + sb)[k] == SectionOf(eventsByDate, (a + b)[k]) {
      if k < |a| {
        assert (sa + sb)[k] == sa[k] && (a + b)[k] == a[k];
      } else {
        assert (sa + sb)[k] == sb[k - |a|] && (a + b)[k] == b[k - |a|];
      }
    }
  }

  /**
   * `AllEventsDialog._load_events` with today's date `today`: the events are
   * grouped by date in a dictionary, its dates sorted and split at `today`;
   * upcoming dates are shown oldest first, past ones newest first, each with
   * its events listed by time. Returns the upcoming and past dates in display
   * order and the sections in display order.
   */
  method AllEventsSections(events: seq<Event>, today: string)
    returns (upcoming: seq<string>, past: seq<string>, sections: seq<Section>)
    ensures forall d :: d in upcoming <==> d in DatesWithEvents(events) && LexLe(today, d)
    ensures forall d :: d in past <==> d in DatesWithEvents(events) && LexLess(d, today)
    ensures forall d :: d in upcoming || d in past <==> d in DatesWithEvents(events)
    ensures forall d :: !(d in upcoming && d in past)
    ensures StrictlyAscending(upcoming)
    ensures forall i, j | 0 <= i < j < |past| :: LexLess(past[j], past[i])
    ensures |sections| == |upcoming| + |past|
    ensures forall k | 0 <= k < |sections| ::
              sections[k].date == (upcoming + past)[k] && sections[k].rows == DayListing(EventsOnDate(events, sections[k].date))
  {
    if events == [] {
      return [], [], [];
    }

    var eventsByDate, keys := GroupByDate(events);
    var sortedDates := StableSort(keys, LexLe);
    SortedKeys(keys);

    upcoming := AtOrAfter(sortedDates, today);
    var pastAscending := Before(sortedDates, today);
    AtOrAfterAscends(sortedDates, today);
    BeforeAscends(sortedDates, today);
    past := Reverse(pastAscending);
    ReverseElements(pastAscending);
    ReverseDescends(pastAscending);

    var upcomingSections := DateSections(eventsByDate, upcoming);
    var pastSections := DateSections(eventsByDate, past);
    sections := upcomingSections + pastSections;
    SectionsConcat(eventsByDate, upcoming, past, upcomingSections, pastSections);
  }
}
