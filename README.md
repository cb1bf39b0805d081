# Calendar event store and reminders, in Dafny

This project models the core of a small GTK calendar application:

- its event store (`src/event_manager.py`);
- the pure logic of its event dialogs (`src/event_dialog.py`).

It proves properties of both.

The model covers:

- **Events.** An `Event` is a value with an id, title, date, time, description and reminder settings. It is written to and read from a JSON dictionary. Its date and time strings give an instant, or no instant when they do not parse. A display time is derived from it, as is the desktop notification raised for it (`events.dfy`).
- **The store.** `EventManager` is a class. Its fields are the list of events, the registered change listeners and the handle of the periodic timer. Add, update and remove change the list in place, save it and call the listeners. Lookups go by id and by date. The reminder scan (`CheckNotifications`) is a two-pass loop over the list. `Cleanup` releases the timer (`store.dfy`).
  - Effects outside the process are recorded in ghost fields:
    - `saved`: the list last written to `events.json`;
    - `invoked`: every listener call;
    - `sent`: every notification handed to the application;
    - `removedSources`: every timer released.
- **The dialogs** (`dialogs.dfy`):
  - the reminder drop-down's table and its inverse;
  - the `HH:MM` string built from the hour and minute spinners;
  - what saving the add/edit dialog does to the store;
  - the order in which a day's events are listed;
  - how the all-events view groups events by date and splits the dates into upcoming and past sections.

Supporting modules:

- `text.dfy`: Python's string order, zero-padded decimal fields and `str.strip()`.
- `datetimes.dfy`: strict `YYYY-MM-DD` and `HH:MM` parsing and formatting, day numbers as in `date.toordinal()`, and the 12-hour clock.
- `sorting.dfy`: Python's stable `sort`/`sorted` under a key order.

Modelling choices:

- The scan's clock reading is a `Clock`: the minute plus the microseconds past it, because `datetime.now()` carries seconds and microseconds. Event instants are whole minutes, counted from 0001-01-01 00:00.
- Identifiers that `uuid.uuid4()` would generate are parameters.
- The model follows the code in these places:
  - A notification whose delivery fails still marks its event notified, because `_send_notification` swallows every error (`src/event_manager.py:210-212`, `src/event_manager.py:243-244`).
  - A new id is generated when the stored id is empty as well as when it is absent, because `event_id or str(uuid.uuid4())` treats `""` as missing (`src/event_manager.py:33`).
  - The dialogs' sort key `(e.time == "", e.time)` puts timed events before all-day events, not after them (`src/event_dialog.py:383`).
  - The second pass of the scan clears flags without saving. The saved file keeps them until the next save (`src/event_manager.py:214-218`).

## Model

| member | source | states |
|---|---|---|
| Text.Strip | src/event_dialog.py:249 | `str.strip()`. The result is one slice `s[a..b]` of the input with only whitespace (Python's `isspace`) before and after it. It is empty exactly when the input is all whitespace, and otherwise starts and ends on non-whitespace, so no more could be removed. |
| Text.StripIdempotent | src/event_dialog.py:268 | Stripping an already stripped title or description changes nothing. |
| Text.LexLessTotal | src/event_manager.py:217 | Python's `<` on strings orders any two different strings one way or the other. |
| Text.DigitsOrder | src/event_manager.py:195 | Zero-padded fields of equal width compare as strings exactly as their values compare as numbers. |
| DateTimes.FormatDate | src/event_manager.py:195 | `strftime("%Y-%m-%d")` gives ten characters with dashes at positions 4 and 7. `DateTimes.ParseFormatDate` shows it is read back as the same date. |
| DateTimes.ParseFormatDate | src/event_manager.py:74 | Formatting a valid date as `%Y-%m-%d` and parsing it back gives the same date. |
| DateTimes.FormatParseDate | src/event_manager.py:74 | A string that parses as a date is the canonical rendering of that date. |
| DateTimes.ParseDate | src/event_manager.py:74 | `strptime(date, "%Y-%m-%d")` succeeds only on a ten-character `YYYY-MM-DD` string naming a real calendar date. |
| DateTimes.DateStringOrder | src/event_manager.py:217 | For canonical date strings, `date < today` holds exactly when the first date is earlier. |
| DateTimes.ParseFormatTime | src/event_manager.py:72 | Formatting a minute of the day as `%H:%M` and parsing it back gives the same minute. |
| DateTimes.FormatParseTime | src/event_manager.py:82 | A string that parses as `HH:MM` is the canonical rendering of its minute. |
| DateTimes.ParseTime | src/event_manager.py:82 | `strptime(time, "%H:%M")` succeeds only on a five-character `HH:MM` string naming a minute of the day. |
| DateTimes.ParseDateTime | src/event_manager.py:72 | `strptime("{date} {time}", "%Y-%m-%d %H:%M")` succeeds exactly when the first ten characters parse as a date, a space follows and the rest parses as a time. The result is that date at that minute. |
| DateTimes.TimeStringOrder | src/event_dialog.py:383 | Canonical `HH:MM` strings compare as strings exactly as their minutes compare. |
| DateTimes.DayNumberOrder | src/event_manager.py:206-209 | Day numbers (as `toordinal`) increase strictly with the calendar order of dates, and equal day numbers mean equal dates. So the scan's instant arithmetic respects calendar order. |
| DateTimes.YearLength | src/event_manager.py:206-209 | The day count before year `y+1` is the count before `y` plus the length of `y`, leap years included. |
| DateTimes.DaysBeforeMonth | src/event_manager.py:206-209 | The days before month `m` number between 28 and 31 for each earlier month. |
| DateTimes.Clock12 | src/event_manager.py:83 | `%I:%M %p` gives eight characters `hh:mm AM` or `hh:mm PM`, with `AM` exactly before noon. |
| DateTimes.Clock12Injective | src/event_manager.py:83 | `%I:%M %p` shows different minutes of the day differently. |
| Events.NewEvent | src/event_manager.py:30-40 | A new event keeps a given non-empty id and otherwise gets the generated one. It starts not notified. |
| Events.ToDict | src/event_manager.py:42-52 | The dictionary has exactly the eight field names. |
| Events.FromDict | src/event_manager.py:54-66 | A present field of the right type is read as stored. Missing fields take their defaults: empty strings, `notify` true, 0 minutes, `notified` false. A non-empty stored id is kept; an absent, null or empty id is replaced by the generated one. |
| Events.FromDictToDict | src/event_manager.py:42-66 | Loading a saved event gives it back unchanged, id and `notified` included. |
| Events.ParseJoined | src/event_manager.py:72 | `"{date} {time}"` parses exactly when the date and the time each parse. The result is that date at that time. |
| Events.GetDateTime | src/event_manager.py:68-76 | There is an instant exactly when the date parses and the time is empty or parses. It falls at midnight for an all-day event and at the stored time otherwise. |
| Events.GetDisplayTime | src/event_manager.py:78-86 | "All day" without a time, and the raw text when the time does not parse. Otherwise an 8-character `hh:mm AM/PM` string. |
| Events.DisplayTimeFaithful | src/event_manager.py:80-85 | Two parsable times that display the same are the same time. |
| Events.NoticeFor | src/event_manager.py:222-242 | The notification is keyed `event-<id>` and titled with the event's title. |
| Events.NoticeBody | src/event_manager.py:227-236 | The body is the calendar mark, a space, then the display time (or `Today` for an all-day event), then a newline and the description when there is one, and nothing else. |
| Events.NoticeKeysDistinct | src/event_manager.py:242 | Notifications for events with different ids never replace each other. |
| Sorting.Insert | src/event_dialog.py:383 | Insertion adds exactly the new element (as a multiset). |
| Sorting.StableSort | src/event_dialog.py:510 | The sort is a permutation of its input. |
| Sorting.StableSortSorted | src/event_dialog.py:510 | Under a total preorder the sort's output is ordered. |
| Sorting.StableSortStable | src/event_dialog.py:555 | Elements with equal keys keep their input order. |
| Sorting.InsertTies | src/event_dialog.py:555 | Inserting into a sorted list puts the new element after everything that ties with it. |
| Store.FindIndex | src/event_manager.py:140-141 | The position found holds the id and is the first such position. `None` means no event has that id. |
| Store.EventsOnDate | src/event_manager.py:158-160 | The result holds exactly the store's events on that date. |
| Store.EventsOnDateAppend | src/event_manager.py:160 | The date filter keeps store order: filtering a concatenation concatenates the filtered parts. |
| Store.EventManager.GetEventsForDate | src/event_manager.py:158-160 | The events returned are exactly the store's events on that date. |
| Store.DatesWithEvents | src/event_manager.py:162-164 | A date is in the set exactly when it has at least one event. |
| Store.EventManager.GetDatesWithEvents | src/event_manager.py:162-164 | A date is returned exactly when some stored event is on it. |
| Store.Updated | src/event_manager.py:140-142 | Updating swaps exactly the first event with the id for the new one, as multisets, and keeps the length. Without a match the list is unchanged. |
| Store.Removed | src/event_manager.py:150-152 | Removing takes out exactly one event, the first with the id. Without a match the list is unchanged. |
| Store.AddKeepsIdsUnique | src/event_manager.py:131-136 | Appending an event whose id is unused keeps ids unique. |
| Store.UpdateKeepsIdsUnique | src/event_manager.py:138-146 | Updating keeps ids unique and leaves the updated event at the position its id was found. |
| Store.RemoveLeavesNoTrace | src/event_manager.py:148-156 | With unique ids, no event with the removed id is left, and ids stay unique. |
| Store.RemovedKeepsOrder | src/event_manager.py:148-156 | Removal deletes exactly the first match and keeps the rest in order. |
| Store.SavedPayloads | src/event_manager.py:126 | The saved array has one dictionary per event, each with all eight fields. |
| Store.Loaded | src/event_manager.py:115 | One event per stored dictionary, in file order, each read by `from_dict`. Every loaded event has an id once the generated ids are non-empty. |
| Store.LoadSavedRoundTrip | src/event_manager.py:109-129 | Loading what was saved gives back the same list. |
| Store.IsDue | src/event_manager.py:198-209 | An event is due only when it wants a reminder and has had none yet. Its instant and window are stated in `Store.DueOnMinutes`. |
| Store.DueOnMinutes | src/event_manager.py:198-209 | On the clock, an event is due exactly when it wants a reminder, has had none and has an instant. The reading must also lie from the minute `notify_minutes_before` ahead of the instant up to exactly one hour after it. |
| Store.WindowOnMinutes | src/event_manager.py:206-209 | On the microsecond clock the window opens at the start of its first minute and closes exactly at the hour after the event, so one microsecond later is outside. |
| Store.FlagDueAt | src/event_manager.py:197-210 | The first pass sets `notified` on exactly the due events and leaves every other event as it was. |
| Store.FirstPassUpToPrefix | src/event_manager.py:197-212 | After the first `i` turns of the loop, the first `i` events are flagged when due, the rest are untouched, their notifications have gone out in store order, and the file holds the current list if anything was sent. |
| Store.ClearStale | src/event_manager.py:216-218 | The second pass changes only `notified`, and clears it exactly on the events dated before today. |
| Store.Scan | src/event_manager.py:192-220 | After the scan only `notified` has changed. It is set exactly on the events not dated before today that were already notified or were due. So every due event not dated before today is flagged, and no event dated before today stays flagged, whatever its `notify`. |
| Store.DueNoticesEmpty | src/event_manager.py:209-212 | Nothing is sent, and nothing saved, exactly when no event is due. |
| Store.DueNoticesAreKeyed | src/event_manager.py:209-210 | Every notification sent belongs to a due event. |
| Store.DueNoticesContains | src/event_manager.py:209-210 | Every due event's notification is sent. |
| Store.MorningEventWindow | src/event_manager.py:206-209 | On 2025-06-01, a 10:00 event with a 15-minute reminder is flagged exactly when the clock reads from 09:45:00 through 11:00:00. |
| Store.ScanRenotifiesPastDated | src/event_manager.py:214-218 | A scan that notifies a past-dated event clears that flag again. Any later scan still inside the window notifies it again. |
| Store.LateEventRenotified | src/event_manager.py:209-218 | The case above happens: a 23:30 event is notified at 00:10:00 the next day and again at 00:10:30. |
| Store.ScanKeepingOpenWindows | src/event_manager.py:214-218 | The corrected scan changes only `notified`. The flag is set on events that were notified or due, and cleared only on past-dated events whose window has closed. |
| Store.NotifiedOncePerWindow | src/event_manager.py:214-218 | With the corrected second pass, an event notified by a scan is not due in the next scan over the result, at any later clock reading. Past-dated events whose window has closed are still cleared. |
| Store.ClearedOnlyWhenClosed | src/event_manager.py:214-218 | The corrected second pass clears a flag only once the event's window has closed. |
| Store.FlagKeptWhileOpen | src/event_manager.py:214-218 | A flag survives every corrected scan while the event's window is open, and a flagged event is not due. So scan after scan, a notified event is not notified again until its window has closed. |
| Store.EventManager.constructor | src/event_manager.py:92-107 | The store starts with the loaded list, no listeners and the timer handle held. |
| Store.EventManager.SaveEvents | src/event_manager.py:122-129 | The saved snapshot becomes the current list; the method may change nothing else. |
| Store.EventManager.RegisterCallback | src/event_manager.py:173-175 | The listener is appended; the method may change nothing else. |
| Store.EventManager.NotifyCallbacks | src/event_manager.py:177-183 | Every listener is called once, in registration order. |
| Store.EventManager.AddEvent | src/event_manager.py:131-136 | The event is appended with no id check. The list is saved, every listener is called, and the result is true. |
| Store.EventManager.UpdateEvent | src/event_manager.py:138-146 | Returns true exactly when some event has the id; the first such event is replaced in place, then saved and listeners called. Otherwise the list is unchanged and there is no save and no listener call. |
| Store.EventManager.RemoveEvent | src/event_manager.py:148-156 | Returns true exactly when some event has the id; the first such event is deleted, then saved and listeners called. Otherwise nothing changes. |
| Store.EventManager.GetEventById | src/event_manager.py:166-171 | Returns an event exactly when one has the id, and then it is the first one. |
| Store.EventManager.SendNotification | src/event_manager.py:222-244 | The notification for the event is recorded as sent; the method may change nothing else. |
| Store.EventManager.NotifyIfDue | src/event_manager.py:198-212 | One turn of the loop: a due event is flagged, its notification sent and the list saved. Any other event leaves the list, the notifications and the file as they were. |
| Store.EventManager.NotifyDue | src/event_manager.py:197-212 | The first pass flags exactly the due events and sends their notifications in store order. The store is saved exactly when something was sent. |
| Store.EventManager.ClearStaleFlags | src/event_manager.py:214-218 | The second pass clears the flag of every event dated before today and saves nothing. |
| Store.EventManager.CheckNotifications | src/event_manager.py:192-220 | The list becomes `Scan` of the old list. The due notifications are sent. The file holds the flagged list if anything was sent and is otherwise untouched. Always returns true. |
| Store.EventManager.Cleanup | src/event_manager.py:246-250 | A held timer is released once and forgotten. Without one nothing changes. Afterwards no timer is held. |
| Store.CleanupTwice | src/event_manager.py:246-250 | Calling cleanup twice releases the timer at most once. |
| Dialogs.ReminderMinutes | src/event_dialog.py:222-233 | Positions 0..5 give 0, 5, 15, 30, 60 and 1440 minutes; any other position gives 0. |
| Dialogs.ReminderIndex | src/event_dialog.py:235-245 | Each offered minute value gives its position; any other value gives 0. |
| Dialogs.ReminderRoundTrip | src/event_dialog.py:222-245 | Position to minutes to position is the identity on 0..5. Minutes to position to minutes is the identity on the offered values and 0 elsewhere. |
| Dialogs.TimeString | src/event_dialog.py:259-263 | Empty exactly for all-day. Otherwise a 5-character string that parses back as the spinners' hour and minute. |
| Dialogs.SpinnerOrder | src/event_dialog.py:263 | Later spinner settings give time strings that sort later. |
| Dialogs.Edited | src/event_dialog.py:265-272 | Editing keeps id and date, writes the stripped title and description, the spinners' time string (empty when all-day), the notify switch and the reminder minutes, and forces `notified` false. |
| Dialogs.Created | src/event_dialog.py:276-284 | A created event has the generated id and the dialog's date, starts not notified, and carries the stripped title and description, the spinners' time string (empty when all-day), the notify switch and the reminder minutes. |
| Dialogs.SavedInstant | src/event_dialog.py:259-284 | A saved event falls on its date at the spinners' time, or at midnight when all-day. An edited event is due again exactly when its notify switch is on and its window contains the clock. |
| Dialogs.OnSave | src/event_dialog.py:247-288 | A blank stripped title changes nothing. Otherwise the edited event replaces the stored one with its id, or the new event is appended. In both cases the list is saved and every listener called, except an edit whose id is no longer stored, which saves nothing and calls no one. |
| Dialogs.LexLeIsTotalPreorder | src/event_dialog.py:510 | String `<=` is a total preorder, so `sorted` on dates is well defined. |
| Dialogs.ByTimeIsTotalPreorder | src/event_dialog.py:383 | The order of the key `(time == "", time)` is a total preorder. |
| Dialogs.ByTimeTies | src/event_dialog.py:383 | Two events tie under the key exactly when their time strings are equal. |
| Dialogs.DayListing | src/event_dialog.py:383 | A day's rows are exactly its events. |
| Dialogs.SectionOf | src/event_dialog.py:542-555 | A date's section carries that date and exactly that date's events. Their order by time is `Dialogs.DayListingOrder`. |
| Dialogs.DayListingOrder | src/event_dialog.py:383 | A day's rows are a permutation of its events. Timed events come before all-day ones, timed events are in `HH:MM` order, and events at the same time keep store order (the same sort runs at `src/event_dialog.py:555`). |
| Dialogs.AtOrAfter | src/event_dialog.py:515 | Keeps exactly the dates not before today. |
| Dialogs.Before | src/event_dialog.py:516 | Keeps exactly the dates before today. |
| Dialogs.AtOrAfterAscends | src/event_dialog.py:515 | Keeping the dates not before today keeps a strictly ascending list strictly ascending. |
| Dialogs.BeforeAscends | src/event_dialog.py:516 | Keeping the dates before today keeps a strictly ascending list strictly ascending. |
| Dialogs.Reverse | src/event_dialog.py:534 | `reversed` puts element `i` at position `n-1-i`. |
| Dialogs.ReverseDescends | src/event_dialog.py:534 | Reversing the strictly ascending past dates lists them strictly descending, most recent first. |
| Dialogs.SortedDistinctAscends | src/event_dialog.py:510 | Sorting distinct dates gives a strictly ascending list. |
| Dialogs.SortedKeys | src/event_dialog.py:510 | `sorted` over the dictionary's distinct keys gives exactly those dates, strictly ascending. |
| Dialogs.GroupedKeysSnoc | src/event_dialog.py:504-506 | One more event adds its date to the dictionary's keys and no other date. |
| Dialogs.GroupedSnoc | src/event_dialog.py:504-507 | One more event joins its date's group, or opens a new group holding only it. |
| Dialogs.GroupByDate | src/event_dialog.py:503-507 | The dictionary's keys are exactly the dates with events, and each maps to that date's events in store order. The key list has no repeats. |
| Dialogs.DateSections | src/event_dialog.py:523-535 | One section per date, in the order given, each listing that date's events by time. |
| Dialogs.AllEventsSections | src/event_dialog.py:487-539 | Upcoming dates are exactly the dates with events not before today, in strictly ascending order. Past dates are exactly those before today, in strictly descending order. Together they partition the dates with events. Each section lists its date's events by time. |

## Findings

| source | as written | input that shows it | evidently intended | confidence | as-written member | corrected member |
|---|---|---|---|---|---|---|
| src/event_manager.py:214-218 | The second pass clears `notified` on every event dated before today, including one whose reminder window is still open. The same scan may have just flagged it. | An event on 2025-06-01 at 23:30 with a reminder at its start time. The clock reads 2025-06-02 00:10:00 and then 00:10:30. Each 30-second tick until 00:30 notifies it again. | A reminder is delivered once per window: a flag is cleared only after the event's window has closed. | medium; not executed | Store.LateEventRenotified | Store.ScanKeepingOpenWindows |

`Store.ClearedOnlyWhenClosed`, `Store.FlagKeptWhileOpen` and `Store.NotifiedOncePerWindow` prove the intended property of the corrected scan. `Store.EventManager.CheckNotifications` keeps the behaviour as written, because it models the program as it is.

## Left out

- Reading and writing `events.json` is modelled only as the list-to-dictionaries conversion (`Store.SavedPayloads`, `Store.Loaded`) plus a ghost snapshot. Also left out: the JSON text and `os.makedirs`. A missing file, or one that is not valid JSON or cannot be read, loads as an empty list. Other malformed content raises out of the constructor. Examples: a top-level array, a non-object entry, a non-list `events`, or bytes that are not UTF-8. Neither case is modelled, and neither is a failed write (which is logged and ignored).
- Store.EventManager.constructor: the ghost `saved` starts as the loaded list. At that point nothing has been written. A missing or unreadable file is not an empty list, and the file lacks any ids that loading generated.
- Logging through `print` is modelled as nothing.
- GLib timers are outside the model: the 30-second `timeout_add_seconds` and the immediate `idle_add` scan. A caller invokes `CheckNotifications` with the clock reading as a parameter, and the timer handle is a parameter of the constructor.
- Desktop delivery through Gio is left out. `SendNotification` records the notification handed over. Whether an application exists to show it, and delivery errors, are not modelled; neither changes the store.
- `datetime.now()` and `uuid.uuid4()` are parameters.
- Events.FromDict: a stored field holding a JSON value of another type than its own (for example `null` for `notify`) is read as absent, because Python would keep the raw value and later use its truthiness.
- DateTimes.ParseDate and DateTimes.ParseTime are strict. `strptime` also accepts single-digit fields and surrounding forms such as `2025-6-1` or `9:05`; those strings give no instant here.
- DateTimes.Clock12 renders `%p` as `AM`/`PM`, as the C locale does; other locales are not modelled.
- Store.EventManager.CheckNotifications: today's date is rendered with a four-digit year. Python's `%Y` writes years below 1000 without padding, and `timedelta` arithmetic near year 1 or 9999 raises `OverflowError`; neither is modelled.
- Sharing of `Event` objects is not modelled. In the program, the dialog's `editing_event` and the flags set by the scan mutate the stored object itself. Here events are values written back into the list, which gives the same final list when ids are unique.
- The date headings of `_add_date_events` (`Today` or `%A, %B %d`), row subtitles and all widget construction and signal wiring are UI and not modelled. So are `_on_delete` and `_on_delete_event`, which call `remove_event`, modelled in the store.
- `src/window.py` is not part of this model.
