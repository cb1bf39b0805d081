/**
 * The event store of event_manager.py (`EventManager`): an ordered list of
 * events changed in place by add, update and remove, lookups by date and by
 * id, change listeners, the reminder scan and the timer handle released by
 * `cleanup`.
 *
 * The effects the store has on the outside world are recorded in ghost
 * fields: `saved` is the list last written to events.json, `invoked` every
 * listener call in order, `sent` every desktop notification handed to the
 * application, `removedSources` every timer released.
 */
module Store {
  import opened Text
  import opened DateTimes
  import opened Events

  /** A registered change listener, known by the handle its owner registered it under. */
  type Callback = nat

  // ---------------------------------------------------------------------
  // Queries over the event list
  // ---------------------------------------------------------------------

  /** Position of the first event with identifier `id`: the one the store's loops stop at. */
  function FindIndex(events: seq<Event>, id: string): (r: Option<nat>)
    ensures r.Some? ==> r.value < |events| && events[r.value].id == id
    ensures r.Some? ==> forall j | 0 <= j < r.value :: events[j].id != id
    ensures r.None? ==> forall j | 0 <= j < |events| :: events[j].id != id
  {
    if events == [] then None
    else if events[0].id == id then Some(0)
    else match FindIndex(events[1..], id)
      case Some(k) => Some(k + 1)
      case None => None
  }

  /** `get_events_for_date(date)`: the events on `date`, in store order. */
  function EventsOnDate(events: seq<Event>, date: string): (r: seq<Event>)
    ensures |r| <= |events|
    ensures forall x :: x in r <==> x in events && x.date == date
  {
    if events == [] then []
    else (if events[0].date == date then [events[0]] else []) + EventsOnDate(events[1..], date)
  }

  /** Filtering by date distributes over concatenation: the filter keeps store order. */
  lemma {:induction false} EventsOnDateAppend(a: seq<Event>, b: seq<Event>, date: string)
    ensures EventsOnDate(a + b, date) == EventsOnDate(a, date) + EventsOnDate(b, date)
  {
    if a == [] {
      assert a + b == b;
    } else {
      assert (a + b)[1..] == a[1..] + b;
      EventsOnDateAppend(a[1..], b, date);
    }
  }

  /** `get_dates_with_events()`: the dates that have at least one event. */
  function DatesWithEvents(events: seq<Event>): (r: set<string>)
    ensures forall d :: d in r <==> EventsOnDate(events, d) != []
  {
    var r := set e | e in events :: e.date;
    assert forall d :: d in r <==> EventsOnDate(events, d) != [] by {
      forall d ensures d in r <==> EventsOnDate(events, d) != [] {
        var on := EventsOnDate(events, d);
        if on != [] {
          assert on[0] in on;
        }
        if d in r {
          var e :| e in events && e.date == d;
          assert e in on;
        }
      }
    }
    r
  }

  predicate UniqueIds(events: seq<Event>)
  {
    forall i, j | 0 <= i < j < |events| :: events[i].id != events[j].id
  }

  /** `update_event(e)` on the list: the first event with `e`'s id is replaced by `e`. */
  function Updated(events: seq<Event>, e: Event): (r: seq<Event>)
    ensures |r| == |events|
    ensures FindIndex(events, e.id).None? ==> r == events
    ensures FindIndex(events, e.id).Some? ==>
              multiset(r) + multiset{events[FindIndex(events, e.id).value]} == multiset(events) + multiset{e}
  {
    match FindIndex(events, e.id)
    case Some(k) =>
      SplitAround(events, k);
      SplitAround(events[k := e], k);
      assert events[k := e][..k] == events[..k] && events[k := e][k + 1..] == events[k + 1..];
      events[k := e]
    case None => events
  }

  /** `remove_event(id)` on the list: the first event with that id is deleted. */
  function Removed(events: seq<Event>, id: string): (r: seq<Event>)
    ensures |r| == |events| - (if FindIndex(events, id).Some? then 1 else 0)
    ensures FindIndex(events, id).None? ==> r == events
    ensures FindIndex(events, id).Some? ==> multiset(r) + multiset{events[FindIndex(events, id).value]} == multiset(events)
  {
    match FindIndex(events, id)
    case Some(k) =>
      SplitAround(events, k);
      events[..k] + events[k + 1..]
    case None => events
  }

  /** A list is what lies before position `k`, the element at `k`, and what follows. */
  lemma SplitAround<T>(s: seq<T>, k: nat)
    requires k < |s|
    ensures s == s[..k] + [s[k]] + s[k + 1..]
    ensures multiset(s) == multiset(s[..k]) + multiset{s[k]} + multiset(s[k + 1..])
  {
    assert s == s[..k] + [s[k]] + s[k + 1..];
  }

  /** Adding an event whose id is not in use keeps identifiers unique. */
  lemma AddKeepsIdsUnique(events: seq<Event>, e: Event)
    requires UniqueIds(events) && FindIndex(events, e.id).None?
    ensures UniqueIds(events + [e])
  {
  }

  /** Updating keeps identifiers unique, and the updated event is then the one found by its id. */
  lemma UpdateKeepsIdsUnique(events: seq<Event>, e: Event)
    requires UniqueIds(events)
    ensures UniqueIds(Updated(events, e))
    ensures FindIndex(events, e.id).Some? ==> FindIndex(Updated(events, e), e.id) == FindIndex(events, e.id)
  {
  }

  /** With unique identifiers, removing an id leaves no event with that id, and keeps ids unique. */
  lemma RemoveLeavesNoTrace(events: seq<Event>, id: string)
    requires UniqueIds(events)
    ensures FindIndex(Removed(events, id), id).None?
    ensures UniqueIds(Removed(events, id))
  {
    match FindIndex(events, id)
    case Some(k) =>
      var r := Removed(events, id);
      assert forall j | 0 <= j < |r| :: r[j] == (if j < k then events[j] else events[j + 1]);
    case None =>
  }

  /** Removing deletes exactly one event and keeps the rest in order. */
  lemma RemovedKeepsOrder(events: seq<Event>, id: string)
    requires FindIndex(events, id).Some?
    ensures var k := FindIndex(events, id).value;
            forall j | 0 <= j < |Removed(events, id)| ::
              Removed(events, id)[j] == (if j < k then events[j] else events[j + 1])
  {
  }

  /** Writing position `i` of a list that is `done` before `i` and `orig` from `i` on. */
  lemma PrefixStep<T>(done: seq<T>, orig: seq<T>, i: nat)
    requires |done| == |orig| && i < |orig|
    ensures (done[..i] + orig[i..])[i := done[i]] == done[..i + 1] + orig[i + 1..]
    ensures done[i] == orig[i] ==> done[..i] + orig[i..] == done[..i + 1] + orig[i + 1..]
  {
  }

  // ---------------------------------------------------------------------
  // The list as stored in events.json
  // ---------------------------------------------------------------------

  /** The `"events"` array `save_events` writes: each event's dictionary, in store order. */
  function SavedPayloads(events: seq<Event>): (r: seq<Payload>)
    ensures |r| == |events| && forall i | 0 <= i < |r| :: r[i].Keys == FieldNames
  {
    seq(|events|, i requires 0 <= i < |events| => ToDict(events[i]))
  }

  /**
   * The list `load_events` builds from the stored array; `freshIds[i]` is the
   * identifier generated for entry `i` should it have none.
   */
  function Loaded(payloads: seq<Payload>, freshIds: seq<string>): (r: seq<Event>)
    requires |freshIds| == |payloads|
    ensures |r| == |payloads|
    ensures forall i | 0 <= i < |r| :: r[i] == FromDict(payloads[i], freshIds[i])
    ensures (forall i | 0 <= i < |freshIds| :: freshIds[i] != "") ==> forall i | 0 <= i < |r| :: r[i].id != ""
  {
    seq(|payloads|, i requires 0 <= i < |payloads| => FromDict(payloads[i], freshIds[i]))
  }

  /** Loading what was saved gives back the same list, flags and identifiers included. */
  lemma LoadSavedRoundTrip(events: seq<Event>, freshIds: seq<string>)
    requires |freshIds| == |events|
    requires forall i | 0 <= i < |events| :: events[i].id != ""
    ensures Loaded(SavedPayloads(events), freshIds) == events
  {
    forall i | 0 <= i < |events| ensures Loaded(SavedPayloads(events), freshIds)[i] == events[i] {
      FromDictToDict(events[i], freshIds[i]);
    }
  }

  // ---------------------------------------------------------------------
  // The reminder scan, as a function of the list and the current time
  // ---------------------------------------------------------------------

  /**
   * A reading of `datetime.now()`: the minute it falls in and the seconds and
   * microseconds past that minute, in microseconds.
   */
  datatype Clock = Clock(at: DateTime, micros: int)

  predicate ValidClock(c: Clock)
  {
    ValidDateTime(c.at) && 0 <= c.micros < 60_000_000
  }

  /** The reading on the microsecond scale, with the same origin as `Instant`. */
  function ClockMicros(c: Clock): int
    requires ValidClock(c)
  {
    Instant(c.at) * 60_000_000 + c.micros
  }

  /**
   * The window `[instant - minutesBefore, instant + 1 hour]` contains `now`:
   * the event's times are whole minutes, `now` is in microseconds.
   */
  predicate InReminderWindow(instant: int, minutesBefore: int, now: int)
  {
    (instant - minutesBefore) * 60_000_000 <= now <= (instant + 60) * 60_000_000
  }

  /** On whole minutes: the window opens at the minute it names and closes at the start of its last minute. */
  lemma WindowOnMinutes(instant: int, minutesBefore: int, c: Clock)
    requires ValidClock(c)
    ensures InReminderWindow(instant, minutesBefore, ClockMicros(c)) <==>
              instant - minutesBefore <= Instant(c.at)
              && (Instant(c.at) < instant + 60 || (Instant(c.at) == instant + 60 && c.micros == 0))
  {
    var n := Instant(c.at);
    if instant - minutesBefore <= n {
      assert (instant - minutesBefore) * 60_000_000 <= n * 60_000_000;
    } else {
      assert (instant - minutesBefore) * 60_000_000 >= (n + 1) * 60_000_000;
    }
    if n < instant + 60 {
      assert (n + 1) * 60_000_000 <= (instant + 60) * 60_000_000;
    } else if n > instant + 60 {
      assert n * 60_000_000 >= (instant + 61) * 60_000_000;
    }
  }

  /** The first pass of `_check_notifications` notifies `e` at `now`. */
  predicate IsDue(e: Event, now: int)
    ensures IsDue(e, now) ==> e.notify && !e.notified
  {
    && e.notify
    && !e.notified
    && GetDateTime(e).Some?
    && InReminderWindow(Instant(GetDateTime(e).value), e.notifyMinutesBefore, now)
  }

  /**
   * On the clock: an event is due exactly when it wants a reminder, has had
   * none, has an instant, and the reading lies from the start of the minute
   * `minutesBefore` ahead of that instant up to exactly one hour after it.
   */
  lemma DueOnMinutes(e: Event, c: Clock)
    requires ValidClock(c)
    ensures IsDue(e, ClockMicros(c)) <==>
              && e.notify && !e.notified && GetDateTime(e).Some?
              && Instant(GetDateTime(e).value) - e.notifyMinutesBefore <= Instant(c.at)
              && (Instant(c.at) < Instant(GetDateTime(e).value) + 60
                  || (Instant(c.at) == Instant(GetDateTime(e).value) + 60 && c.micros == 0))
  {
    if GetDateTime(e).Some? {
      WindowOnMinutes(Instant(GetDateTime(e).value), e.notifyMinutesBefore, c);
    }
  }

  /** `e` as the first pass leaves it: flagged when due, untouched otherwise. */
  function Flagged(e: Event, now: int): Event
  {
    if IsDue(e, now) then e.(notified := true) else e
  }

  /** The list after the first pass, built from the back as the notices are. */
  function FlagDue(events: seq<Event>, now: int): (r: seq<Event>)
    ensures |r| == |events|
  {
    if events == [] then []
    else FlagDue(events[..|events| - 1], now) + [Flagged(events[|events| - 1], now)]
  }

  /** The first pass flags every due event and changes nothing else. */
  lemma {:induction false} FlagDueAt(events: seq<Event>, now: int)
    ensures forall i | 0 <= i < |events| ::
              FlagDue(events, now)[i] == if IsDue(events[i], now) then events[i].(notified := true) else events[i]
  {
    if events != [] {
      var init := events[..|events| - 1];
      FlagDueAt(init, now);
      assert forall i | 0 <= i < |init| :: init[i] == events[i];
    }
  }

  /** The list after the second pass: flags cleared on events dated before `today`. */
  function ClearStale(events: seq<Event>, today: string): (r: seq<Event>)
    ensures |r| == |events|
    ensures forall i | 0 <= i < |r| :: r[i] == events[i].(notified := r[i].notified)
    ensures forall i | 0 <= i < |r| :: r[i].notified <==> events[i].notified && !LexLess(events[i].date, today)
  {
    seq(|events|, i requires 0 <= i < |events| =>
      if LexLess(events[i].date, today) && events[i].notified then events[i].(notified := false) else events[i])
  }

  /** The notifications the first pass sends, in store order. */
  function DueNotices(events: seq<Event>, now: int): (r: seq<Notice>)
    ensures |r| <= |events|
  {
    if events == [] then []
    else
      var last := events[|events| - 1];
      DueNotices(events[..|events| - 1], now) + (if IsDue(last, now) then [NoticeFor(last)] else [])
  }

  /**
   * The event list after `_check_notifications` at `now`: only `notified`
   * changes; it ends up set exactly on the events not dated before today that
   * were already notified or were due.
   */
  function Scan(events: seq<Event>, now: Clock): (r: seq<Event>)
    requires ValidClock(now)
    ensures |r| == |events|
    ensures forall i | 0 <= i < |r| :: r[i] == events[i].(notified := r[i].notified)
    ensures forall i | 0 <= i < |r| ::
              r[i].notified <==>
                !LexLess(events[i].date, FormatDate(now.at.date)) && (events[i].notified || IsDue(events[i], ClockMicros(now)))
  {
    FlagDueAt(events, ClockMicros(now));
    ClearStale(FlagDue(events, ClockMicros(now)), FormatDate(now.at.date))
  }

  /** What the first pass has done so far: the list, the notices sent, the list last saved. */
  datatype FirstPass = FirstPass(events: seq<Event>, sent: seq<Notice>, saved: seq<Event>)

  /** One turn of the first pass, at position `i`: a due event is notified, flagged and saved. */
  function FirstPassTurn(p: FirstPass, i: nat, now: int): (q: FirstPass)
    requires i < |p.events|
    ensures |q.events| == |p.events|
  {
    var e := p.events[i];
    var events := p.events[i := Flagged(e, now)];
    FirstPass(events, p.sent + (if IsDue(e, now) then [NoticeFor(e)] else []),
              if IsDue(e, now) then events else p.saved)
  }

  /** The first pass over `start` after its first `i` turns. */
  function FirstPassUpTo(start: seq<Event>, i: nat, now: int, sent0: seq<Notice>, saved0: seq<Event>): (p: FirstPass)
    requires i <= |start|
    ensures |p.events| == |start|
  {
    if i == 0 then FirstPass(start, sent0, saved0)
    else FirstPassTurn(FirstPassUpTo(start, i - 1, now, sent0, saved0), i - 1, now)
  }

  /** Writing `x` at position `k` of a list that is `done` before `k` and `orig` from `k` on. */
  lemma SnocStep<T>(done: seq<T>, orig: seq<T>, k: nat, x: T)
    requires |done| == k < |orig|
    ensures (done + orig[k..])[k] == orig[k]
    ensures (done + orig[k..])[k := x] == done + [x] + orig[k + 1..]
  {
  }

  lemma FlagDueSnoc(start: seq<Event>, k: nat, now: int)
    requires k < |start|
    ensures FlagDue(start[..k + 1], now) == FlagDue(start[..k], now) + [Flagged(start[k], now)]
  {
    assert start[..k + 1][..k] == start[..k];
  }

  /** A turn at position `k` extends the flagged prefix and the notices sent by one event. */
  lemma FirstPassTurnStep(start: seq<Event>, k: nat, now: int, sent0: seq<Notice>, saved0: seq<Event>, p: FirstPass)
    requires k < |start|
    requires p.events == FlagDue(start[..k], now) + start[k..]
    requires p.sent == sent0 + DueNotices(start[..k], now)
    requires p.saved == (if |DueNotices(start[..k], now)| == 0 then saved0 else p.events)
    ensures var q := FirstPassTurn(p, k, now);
            && q.events == FlagDue(start[..k + 1], now) + start[k + 1..]
            && q.sent == sent0 + DueNotices(start[..k + 1], now)
            && q.saved == (if |DueNotices(start[..k + 1], now)| == 0 then saved0 else q.events)
  {
    SnocStep(FlagDue(start[..k], now), start, k, Flagged(start[k], now));
    FlagDueSnoc(start, k, now);
    DueNoticesStep(start, k, now);
  }

  /**
   * After `i` turns the first `i` events are flagged and the rest untouched,
   * their notices have been sent, and the store was saved as it now stands if
   * any notice went out.
   */
  lemma {:induction false} FirstPassUpToPrefix(start: seq<Event>, i: nat, now: int, sent0: seq<Notice>, saved0: seq<Event>)
    requires i <= |start|
    ensures var p := FirstPassUpTo(start, i, now, sent0, saved0);
            && p.events == FlagDue(start[..i], now) + start[i..]
            && p.sent == sent0 + DueNotices(start[..i], now)
            && p.saved == (if |DueNotices(start[..i], now)| == 0 then saved0 else p.events)
  {
    if i == 0 {
      assert start[..0] == [] && start[0..] == start;
      assert FlagDue(start[..0], now) == [];
    } else {
      FirstPassUpToPrefix(start, i - 1, now, sent0, saved0);
      FirstPassTurnStep(start, i - 1, now, sent0, saved0, FirstPassUpTo(start, i - 1, now, sent0, saved0));
    }
  }

  /** The whole first pass flags `FlagDue`, sends `DueNotices` and saves only if one went out. */
  lemma FirstPassWhole(start: seq<Event>, now: int, sent0: seq<Notice>, saved0: seq<Event>)
    ensures var p := FirstPassUpTo(start, |start|, now, sent0, saved0);
            && p.events == FlagDue(start, now)
            && p.sent == sent0 + DueNotices(start, now)
            && p.saved == (if DueNotices(start, now) == [] then saved0 else p.events)
  {
    FirstPassUpToPrefix(start, |start|, now, sent0, saved0);
    assert start[..|start|] == start;
    assert FlagDue(start, now) + start[|start|..] == FlagDue(start, now);
  }

  lemma DueNoticesStep(events: seq<Event>, i: nat, now: int)
    requires i < |events|
    ensures DueNotices(events[..i + 1], now)
            == DueNotices(events[..i], now) + (if IsDue(events[i], now) then [NoticeFor(events[i])] else [])
  {
    assert events[..i + 1][..i] == events[..i];
  }

  /** The store is written during the scan exactly when a notification goes out. */
  lemma {:induction false} DueNoticesEmpty(events: seq<Event>, now: int)
    ensures DueNotices(events, now) == [] <==> forall i | 0 <= i < |events| :: !IsDue(events[i], now)
  {
    if events != [] {
      var init := events[..|events| - 1];
      DueNoticesEmpty(init, now);
      assert forall i | 0 <= i < |init| :: init[i] == events[i];
    }
  }

  /** Every notification sent is the notification of some due event. */
  lemma {:induction false} DueNoticesAreKeyed(events: seq<Event>, now: int)
    ensures forall n | n in DueNotices(events, now) ::
              exists i | 0 <= i < |events| :: IsDue(events[i], now) && n == NoticeFor(events[i])
  {
    if events != [] {
      var init := events[..|events| - 1];
      DueNoticesAreKeyed(init, now);
      assert forall i | 0 <= i < |init| :: init[i] == events[i];
    }
  }

  /**
   * An event notified in a scan whose day has already moved past the event's
   * date has its flag cleared by the same scan; so every later scan that still
   * falls inside its window notifies it again.
   */
  lemma ScanRenotifiesPastDated(events: seq<Event>, i: nat, now: Clock, later: Clock)
    requires ValidClock(now) && ValidClock(later) && i < |events|
    requires IsDue(events[i], ClockMicros(now)) && LexLess(events[i].date, FormatDate(now.at.date))
    requires IsDue(events[i], ClockMicros(later))
    ensures IsDue(Scan(events, now)[i], ClockMicros(later))
    ensures NoticeFor(events[i]) in DueNotices(Scan(events, now), ClockMicros(later))
  {
    var scanned := Scan(events, now);
    assert scanned[i] == events[i];
    DueNoticesContains(scanned, i, ClockMicros(later));
  }

  /** Every due event has its notification among those sent. */
  lemma DueNoticesContains(events: seq<Event>, i: nat, now: int)
    requires i < |events| && IsDue(events[i], now)
    ensures NoticeFor(events[i]) in DueNotices(events, now)
  {
    var notice := NoticeFor(events[i]);
    DueNoticesAdds(events, i, now);
    var k := i + 1;
    while k < |events|
      invariant i < k <= |events|
      invariant notice in DueNotices(events[..k], now)
    {
      DueNoticesKeeps(events, k, now, notice);
      k := k + 1;
    }
    assert events[..k] == events;
  }

  /** A due event's notification is sent at its turn. */
  lemma DueNoticesAdds(events: seq<Event>, i: nat, now: int)
    requires i < |events| && IsDue(events[i], now)
    ensures NoticeFor(events[i]) in DueNotices(events[..i + 1], now)
  {
    DueNoticesStep(events, i, now);
  }

  /** A notification once sent stays among those sent. */
  lemma DueNoticesKeeps(events: seq<Event>, k: nat, now: int, n: Notice)
    requires k < |events| && n in DueNotices(events[..k], now)
    ensures n in DueNotices(events[..k + 1], now)
  {
    DueNoticesStep(events, k, now);
  }

  /** The late event below: dated 2025-06-01 at 23:30, reminder at the start time. */
  function LateEvent(): Event
  {
    Event("late", "Late", "2025-06-01", "23:30", "", true, 0, false)
  }

  lemma LateDateText()
    ensures FormatDate(Date(2025, 6, 1)) == "2025-06-01"
  {
    assert Digits(2, 1) == "2";
    assert Digits(20, 2) == "20";
    assert Digits(202, 3) == "202";
    assert Digits(2025, 4) == "2025";
    assert Digits(6, 2) == "06" && Digits(1, 2) == "01";
  }

  lemma LateTimeText()
    ensures FormatTime(1410) == "23:30"
  {
    assert 1410 / 60 == 23 && 1410 % 60 == 30;
    assert Digits(23, 2) == "23" && Digits(30, 2) == "30";
  }

  lemma LateEventInstant()
    ensures GetDateTime(LateEvent()) == Some(DateTime(Date(2025, 6, 1), 1410))
  {
    LateDateText();
    LateTimeText();
    ParseFormatDate(Date(2025, 6, 1));
    ParseFormatTime(1410);
  }

  /** Forty minutes past the late event, inside its one-hour window. */
  lemma LateEventDueAt(now: Clock)
    requires ValidClock(now) && now.at == DateTime(Date(2025, 6, 2), 10)
    ensures IsDue(LateEvent(), ClockMicros(now))
  {
    LateEventInstant();
    assert DayNumber(Date(2025, 6, 2)) == DayNumber(Date(2025, 6, 1)) + 1;
    WindowOnMinutes(Instant(DateTime(Date(2025, 6, 1), 1410)), 0, now);
  }

  /**
   * The premise above is reachable: at 00:10:00 on 2025-06-02 the 23:30 event
   * of the day before is notified and its flag cleared in the same scan, and
   * the next tick, thirty seconds later, notifies it again.
   */
  lemma LateEventRenotified()
    ensures var first, second := Clock(DateTime(Date(2025, 6, 2), 10), 0), Clock(DateTime(Date(2025, 6, 2), 10), 30_000_000);
            && ValidClock(first) && ValidClock(second)
            && ClockMicros(first) < ClockMicros(second)
            && IsDue(LateEvent(), ClockMicros(first))
            && IsDue(Scan([LateEvent()], first)[0], ClockMicros(second))
  {
    var first, second := Clock(DateTime(Date(2025, 6, 2), 10), 0), Clock(DateTime(Date(2025, 6, 2), 10), 30_000_000);
    LateEventDueAt(first);
    LateEventDueAt(second);
    LateDateText();
    DateStringOrder(Date(2025, 6, 1), Date(2025, 6, 2));
    assert LexLess(LateEvent().date, FormatDate(first.at.date));
    ScanRenotifiesPastDated([LateEvent()], 0, first, second);
  }

  /** An event on 2025-06-01 at 10:00 with a reminder 15 minutes before. */
  function MorningEvent(): Event
  {
    Event("morning", "Morning", "2025-06-01", "10:00", "", true, 15, false)
  }

  lemma MorningTimeText()
    ensures FormatTime(600) == "10:00"
  {
    assert 600 / 60 == 10 && 600 % 60 == 0;
    assert Digits(10, 2) == "10" && Digits(0, 2) == "00";
  }

  /**
   * On its own day the 10:00 event with a 15-minute reminder is flagged by a
   * scan exactly from 09:45:00 up to and including 11:00:00.
   */
  lemma MorningEventWindow(now: Clock)
    requires ValidClock(now) && now.at.date == Date(2025, 6, 1)
    ensures Scan([MorningEvent()], now)[0].notified <==>
              9 * 60 + 45 <= now.at.minute && (now.at.minute < 11 * 60 || (now.at.minute == 11 * 60 && now.micros == 0))
  {
    LateDateText();
    MorningTimeText();
    ParseFormatDate(Date(2025, 6, 1));
    ParseFormatTime(600);
    LexLessIrreflexive("2025-06-01");
    var at := DateTime(Date(2025, 6, 1), 600);
    assert GetDateTime(MorningEvent()) == Some(at);
    WindowOnMinutes(Instant(at), 15, now);
  }

  /** The event's reminder window has not closed by `now`. */
  predicate WindowOpen(e: Event, now: int)
  {
    GetDateTime(e).Some? && now <= (Instant(GetDateTime(e).value) + 60) * 60_000_000
  }

  /** The second pass as evidently intended: a flag is cleared only once the event's window has closed. */
  function ClearClosed(events: seq<Event>, today: string, now: int): (r: seq<Event>)
    ensures |r| == |events|
  {
    seq(|events|, i requires 0 <= i < |events| =>
      if LexLess(events[i].date, today) && events[i].notified && !WindowOpen(events[i], now)
      then events[i].(notified := false) else events[i])
  }

  /** `_check_notifications` with the second pass corrected. */
  function ScanKeepingOpenWindows(events: seq<Event>, now: Clock): (r: seq<Event>)
    requires ValidClock(now)
    ensures |r| == |events|
    ensures forall i | 0 <= i < |r| :: r[i] == events[i].(notified := r[i].notified)
    ensures forall i | 0 <= i < |r| ::
              r[i].notified <==>
                (events[i].notified || IsDue(events[i], ClockMicros(now)))
                && !(LexLess(events[i].date, FormatDate(now.at.date)) && !WindowOpen(events[i], ClockMicros(now)))
  {
    FlagDueAt(events, ClockMicros(now));
    ClearClosed(FlagDue(events, ClockMicros(now)), FormatDate(now.at.date), ClockMicros(now))
  }

  /**
   * With the corrected pass, an event notified by a scan is not notified again
   * by any later scan over the result; and past-dated flags whose window has
   * closed are still cleared.
   */
  lemma NotifiedOncePerWindow(events: seq<Event>, i: nat, now: Clock, later: Clock)
    requires ValidClock(now) && ValidClock(later) && i < |events|
    requires ClockMicros(now) <= ClockMicros(later)
    ensures IsDue(events[i], ClockMicros(now)) ==> !IsDue(ScanKeepingOpenWindows(events, now)[i], ClockMicros(later))
    ensures LexLess(events[i].date, FormatDate(now.at.date)) && !WindowOpen(events[i], ClockMicros(now)) ==>
              !ScanKeepingOpenWindows(events, now)[i].notified
  {
    FlagDueAt(events, ClockMicros(now));
  }

  /** The corrected second pass clears a flag only once the event's window has closed. */
  lemma ClearedOnlyWhenClosed(events: seq<Event>, i: nat, now: Clock)
    requires ValidClock(now) && i < |events|
    ensures FlagDue(events, ClockMicros(now))[i].notified && !ScanKeepingOpenWindows(events, now)[i].notified ==>
              !WindowOpen(events[i], ClockMicros(now))
  {
    FlagDueAt(events, ClockMicros(now));
  }

  /**
   * A flag survives every corrected scan while the event's window is open, so
   * a notified event is not due again, scan after scan, until its window closes.
   */
  lemma FlagKeptWhileOpen(events: seq<Event>, i: nat, later: Clock)
    requires ValidClock(later) && i < |events|
    requires events[i].notified && WindowOpen(events[i], ClockMicros(later))
    ensures ScanKeepingOpenWindows(events, later)[i].notified
    ensures !IsDue(ScanKeepingOpenWindows(events, later)[i], ClockMicros(later))
  {
    FlagDueAt(events, ClockMicros(later));
  }

  // ---------------------------------------------------------------------
  // The store object
  // ---------------------------------------------------------------------

  class EventManager {
    /** `self.events`, in insertion order. */
    var events: seq<Event>
    /** `self._callbacks`. */
    var callbacks: seq<Callback>
    /** `self._notification_timeout_id`: the GLib source of the periodic scan, if any. */
    var timeoutId: Option<nat>

    ghost var saved: seq<Event>
    ghost var invoked: seq<Callback>
    ghost var sent: seq<Notice>
    ghost var removedSources: seq<nat>

    /**
     * `EventManager()`: `loaded` is what `load_events` produced (the stored
     * events, or none when the file is missing or unreadable) and `timerSource`
     * the handle GLib returned for the 30-second scan.
     */
    constructor (loaded: seq<Event>, timerSource: nat)
      ensures events == loaded && callbacks == [] && timeoutId == Some(timerSource)
      ensures saved == loaded && invoked == [] && sent == [] && removedSources == []
    {
      events := loaded;
      callbacks := [];
      timeoutId := Some(timerSource);
      saved := loaded;
      invoked := [];
      sent := [];
      removedSources := [];
    }

    /** `save_events()`: the file now holds the current list (a failed write is logged and ignored). */
    method SaveEvents()
      modifies this`saved
      ensures saved == events
    {
      saved := events;
    }

    /** `register_callback(callback)`. */
    method RegisterCallback(callback: Callback)
      modifies this`callbacks
      ensures callbacks == old(callbacks) + [callback]
    {
      callbacks := callbacks + [callback];
    }

    /** `_notify_callbacks()`: every listener is called once, in order; a failing one does not stop the rest. */
    method NotifyCallbacks()
      modifies this`invoked
      ensures invoked == old(invoked) + callbacks
    {
      for i := 0 to |callbacks|
        invariant invoked == old(invoked) + callbacks[..i]
      {
        invoked := invoked + [callbacks[i]];
      }
    }

    /** `add_event(event)`: appended without any check on its id; saved; listeners told. */
    method AddEvent(event: Event) returns (ok: bool)
      modifies this`events, this`saved, this`invoked
      ensures ok
      ensures events == old(events) + [event]
      ensures saved == events && invoked == old(invoked) + callbacks
    {
      events := events + [event];
      SaveEvents();
      NotifyCallbacks();
      return true;
    }

    /**
     * `update_event(event)`: the first event with the same id is replaced in
     * place; without one nothing happens, not even a save or a listener call.
     */
    method UpdateEvent(event: Event) returns (ok: bool)
      modifies this`events, this`saved, this`invoked
      ensures ok <==> FindIndex(old(events), event.id).Some?
      ensures events == Updated(old(events), event)
      ensures ok ==> saved == events && invoked == old(invoked) + callbacks
      ensures !ok ==> saved == old(saved) && invoked == old(invoked)
    {
      var i := 0;
      while i < |events|
        invariant 0 <= i <= |events|
        invariant forall j | 0 <= j < i :: events[j].id != event.id
        invariant events == old(events) && saved == old(saved) && invoked == old(invoked)
      {
        if events[i].id == event.id {
          events := events[i := event];
          SaveEvents();
          NotifyCallbacks();
          return true;
        }
        i := i + 1;
      }
      return false;
    }

    /** `remove_event(event_id)`: the first event with that id is deleted; without one nothing happens. */
    method RemoveEvent(eventId: string) returns (ok: bool)
      modifies this`events, this`saved, this`invoked
      ensures ok <==> FindIndex(old(events), eventId).Some?
      ensures events == Removed(old(events), eventId)
      ensures ok ==> saved == events && invoked == old(invoked) + callbacks
      ensures !ok ==> saved == old(saved) && invoked == old(invoked)
    {
      var i := 0;
      while i < |events|
        invariant 0 <= i <= |events|
        invariant forall j | 0 <= j < i :: events[j].id != eventId
        invariant events == old(events) && saved == old(saved) && invoked == old(invoked)
      {
        if events[i].id == eventId {
          events := events[..i] + events[i + 1..];
          SaveEvents();
          NotifyCallbacks();
          return true;
        }
        i := i + 1;
      }
      return false;
    }

    /** `get_events_for_date(date_str)`. */
    function GetEventsForDate(date: string): (r: seq<Event>)
      reads this
      ensures forall x :: x in r <==> x in events && x.date == date
    {
      EventsOnDate(events, date)
    }

    /** `get_dates_with_events()`. */
    function GetDatesWithEvents(): (r: set<string>)
      reads this
      ensures forall d :: d in r <==> exists i | 0 <= i < |events| :: events[i].date == d
    {
      DatesWithEvents(events)
    }

    /** `get_event_by_id(event_id)`: the first event with that id, or `None`. */
    method GetEventById(eventId: string) returns (r: Option<Event>)
      ensures r.Some? <==> exists j | 0 <= j < |events| :: events[j].id == eventId
      ensures r.Some? ==> r.value.id == eventId && r.value == events[FindIndex(events, eventId).value]
    {
      var i := 0;
      while i < |events|
        invariant 0 <= i <= |events|
        invariant forall j | 0 <= j < i :: events[j].id != eventId
      {
        if events[i].id == eventId {
          assert FindIndex(events, eventId) == Some(i);
          return Some(events[i]);
        }
        i := i + 1;
      }
      return None;
    }

    /** `_send_notification(event)`: handed to the application; delivery errors are logged and ignored. */
    method SendNotification(event: Event)
      modifies this`sent
      ensures sent == old(sent) + [NoticeFor(event)]
    {
      sent := sent + [NoticeFor(event)];
    }

    /**
     * One turn of the first pass of `_check_notifications`, on the event at
     * position `i`: skipped unless it wants a reminder, has none yet and has an
     * instant; notified, flagged and saved when `now` is in its window.
     */
    method NotifyIfDue(i: nat, now: int)
      requires i < |events|
      modifies this`events, this`sent, this`saved
      ensures var e := old(events)[i];
              && events == old(events)[i := Flagged(e, now)]
              && sent == old(sent) + (if IsDue(e, now) then [NoticeFor(e)] else [])
              && saved == (if IsDue(e, now) then events else old(saved))
    {
      var event := events[i];
      if !event.notify || event.notified {
        return;
      }
      var eventTime := GetDateTime(event);
      if eventTime.None? {
        return;
      }
      var eventMinute := Instant(eventTime.value);
      var notifyTime := (eventMinute - event.notifyMinutesBefore) * 60_000_000;
      if now >= notifyTime && now <= (eventMinute + 60) * 60_000_000 {
        SendNotification(event);
        events := events[i := event.(notified := true)];
        SaveEvents();
      }
    }

    /**
     * The first pass of `_check_notifications`: each due event is notified,
     * flagged and the store saved, one event at a time.
     */
    method NotifyDue(now: int)
      modifies this`events, this`sent, this`saved
      ensures events == FlagDue(old(events), now)
      ensures sent == old(sent) + DueNotices(old(events), now)
      ensures saved == if DueNotices(old(events), now) == [] then old(saved) else events
    {
      ghost var start := events;
      var i := 0;
      while i < |events|
        invariant i <= |start|
        invariant FirstPass(events, sent, saved) == FirstPassUpTo(start, i, now, old(sent), old(saved))
      {
        NotifyIfDue(i, now);
        i := i + 1;
      }
      FirstPassWhole(start, now, old(sent), old(saved));
    }

    /** The second pass of `_check_notifications`: flags on events dated before `today` are cleared, unsaved. */
    method ClearStaleFlags(today: string)
      modifies this`events
      ensures events == ClearStale(old(events), today)
    {
      ghost var start := events;
      var i := 0;
      while i < |events|
        invariant 0 <= i <= |events| == |start|
        invariant events == ClearStale(start, today)[..i] + start[i..]
      {
        PrefixStep(ClearStale(start, today), start, i);
        if LexLess(events[i].date, today) && events[i].notified {
          events := events[i := events[i].(notified := false)];
        }
        i := i + 1;
      }
    }

    /**
     * `_check_notifications()` with the clock reading `now`: notify and flag
     * every due event (saving after each), then clear the flag of every event
     * dated before today. The clearing is not saved. Always asks to keep running.
     */
    method CheckNotifications(now: Clock) returns (keepRunning: bool)
      requires ValidClock(now)
      modifies this`events, this`sent, this`saved
      ensures keepRunning
      ensures events == Scan(old(events), now)
      ensures sent == old(sent) + DueNotices(old(events), ClockMicros(now))
      ensures saved == if DueNotices(old(events), ClockMicros(now)) == [] then old(saved)
                       else FlagDue(old(events), ClockMicros(now))
    {
      NotifyDue(ClockMicros(now));
      ClearStaleFlags(FormatDate(now.at.date));
      return true;
    }

    /** The periodic scan's timer is held (`if self._notification_timeout_id:`). */
    predicate TimerArmed()
      reads this
    {
      timeoutId.Some? && timeoutId.value != 0
    }

    /** `cleanup()`: releases the timer if one is held and forgets it. */
    method Cleanup()
      modifies this`timeoutId, this`removedSources
      ensures !TimerArmed()
      ensures old(TimerArmed()) ==> timeoutId == None && removedSources == old(removedSources) + [old(timeoutId).value]
      ensures !old(TimerArmed()) ==> timeoutId == old(timeoutId) && removedSources == old(removedSources)
    {
      if timeoutId.Some? && timeoutId.value != 0 {
        removedSources := removedSources + [timeoutId.value];
        timeoutId := None;
      }
    }
  }

  /** Tearing down twice releases the timer once. */
  method CleanupTwice(m: EventManager)
    modifies m`timeoutId, m`removedSources
    ensures m.removedSources == old(m.removedSources) + (if old(m.TimerArmed()) then [old(m.timeoutId).value] else [])
  {
    m.Cleanup();
    m.Cleanup();
  }
}
