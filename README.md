# Calendar slot enumerator

A Dafny model of the slot enumerator of the `Calendar` service in
`app/services/calendar.rb`. The enumerator has two parts:

- `check_availability(start, end)` scans the user's calendar events. It
  returns `false` at the first event that fully covers the range. If no
  event covers it, it returns the events array, which Ruby treats as true.
- `get_available_slots(start_time, end_time, duration, gap)` walks from
  `start_time` towards `end_time` in steps of `duration`. It skips instants
  that are not on a working day or that it judges outside working hours.
  At every other instant that `check_availability` lets through, it appends
  the slot `{start_time: t, end_time: t + duration}`.

Time is modelled as whole seconds of local wall-clock time since
1970-01-01 00:00, which was a Thursday (module `WallClock`). `Weekday` is
Ruby's `Time#wday`, `MinuteOfHour` is `Time#min` and `MinuteOfDay` is
`hour * 60 + min`. Events are `(startTime, endTime)` pairs passed in as a
sequence.

The loop is modelled once, as `Calendar.EnumerateSlots`. It takes the skip
condition as a parameter and is proved equal to the recursive specification
`Calendar.SlotsFrom`. The lemmas about `SlotsFrom` hold for every skip
condition. `Calendar.GetAvailableSlots` is the loop with the skip condition
exactly as written (`Calendar.AsWrittenSkip`).

The code has two quirks, and the model keeps both:

- The working-hours test compares `current_time.min` with
  `DEFAULT_START_TIME = 480` and `DEFAULT_END_TIME = 1080`. The minute of the
  hour is always between 0 and 59, so it is always below 480. The skip branch
  therefore fires on every pass, and `get_available_slots` returns `[]` for
  every input (`Calendar.AsWrittenFindsNothing`, `Calendar.GetAvailableSlots`).
- `gap` is accepted but never read. The contract of `GetAvailableSlots`
  does not mention it.

`get_available_slots` never ends when `start_time < end_time` and
`duration <= 0`. That is the only precondition of the loop:
`startTime < endTime ==> duration > 0`.

## Model

| member | source | states |
|---|---|---|
| `WallClock.Weekday` | app/services/calendar.rb:42 | `wday` of an instant is a day number from 0 to 6 |
| `WallClock.MinuteOfHour` | app/services/calendar.rb:43-44 | `min` of an instant is always between 0 and 59 |
| `Calendar.Covers` | app/services/calendar.rb:23 | an event blocks the range when it starts no later than the range and ends no earlier; for a non-empty range that is both ends of the range lying within the event |
| `Calendar.CoversContainsRange` | app/services/calendar.rb:23 | for a non-empty range, the test at line 23 holds exactly when every instant of the range lies within the event |
| `Calendar.ScanFrom` | app/services/calendar.rb:22-26 | scanning from position `i` returns `false` exactly when some event at `i` or later covers the range; otherwise it returns the whole events array |
| `Calendar.CheckAvailability` | app/services/calendar.rb:21-27 | falsy exactly when some event has `start_time <= s` and `end_time >= e`, so an event that only partly overlaps does not block; when truthy the value is the events array, including the empty array when there are no events |
| `Calendar.BlockedSubrange` | app/services/calendar.rb:23 | a range that `check_availability` blocks stays blocked for every range inside it |
| `Calendar.AsWrittenSkip` | app/services/calendar.rb:42-44 | the skip condition as written (not a working day, or `min` below 480 or above 1080) holds at every instant, because `min` is below 60 |
| `Calendar.SlotsFrom` | app/services/calendar.rb:35-57 | the list the loop builds from a given `current_time`, with at most one slot per pass of the loop |
| `Calendar.EnumerateSlots` | app/services/calendar.rb:35-57 | the loop builds exactly the specification list `SlotsFrom`; it makes `ceil((end_time - start_time) / duration)` passes; with `start_time >= end_time` it returns `[]` after no passes; it appends at most one slot per pass |
| `Calendar.GetAvailableSlots` | app/services/calendar.rb:29-60 | the result is the specification list under the guard as written, and it is `[]` for every input and every `gap` |
| `Calendar.IterationsIsCeiling` | app/services/calendar.rb:38-56 | each pass advances `current_time` by exactly `duration` in both branches, so there are `ceil((end_time - start_time) / duration)` passes, and none when `start_time >= end_time` |
| `Calendar.SlotsFromMember` | app/services/calendar.rb:36-56 | a slot is in the result exactly when its start is `start_time + k * duration` for some `k >= 0` and below `end_time`, its end is start plus `duration`, its start is not skipped, and no event covers it |
| `Calendar.SlotsFromShape` | app/services/calendar.rb:49-53 | every slot lasts exactly `duration`, starts in `[start_time, end_time)` on a step of the walk, is not skipped, and no single event covers it; its end may lie past `end_time` |
| `Calendar.SlotsFromOrdered` | app/services/calendar.rb:54-56 | slots are appended in strictly increasing start order and no two overlap |
| `Calendar.AsWrittenFindsNothing` | app/services/calendar.rb:42-47 | with the skip condition as written, the loop never appends a slot |
| `Calendar.AsWrittenMissesFreeMondayMorning` | app/services/calendar.rb:40-44 | Monday 09:00 with no events is a free working-hours instant, yet the code as written returns `[]` for it |
| `Calendar.IntendedFindsFreeMondayMorning` | app/services/calendar.rb:40-44 | with the skip condition compared by minute of the day, the same free half hour is returned |
| `Calendar.IntendedSlotsInWorkingHours` | app/services/calendar.rb:40-44 | with the intended skip condition, every slot starts on a weekday in `DEFAULT_WORKING_DAYS` between minute 480 and minute 1080 of the day, lasts `duration`, and no event covers it |

## Findings

| source | as written | input that shows it | evidently intended | confidence | as-written member | corrected member |
|---|---|---|---|---|---|---|
| app/services/calendar.rb:43-44 | `current_time.min < 480 \|\| current_time.min > 1080` compares the minute of the hour, which is always 0 to 59, with bounds given in minutes of the day, so every instant is skipped and the result is always `[]` | Monday 1970-01-05 09:00 local time, `end_time` 30 minutes later, duration 30 minutes, no events | compare `hour * 60 + min`, the minute of the day, with 480 and 1080, as the comment at calendar.rb:40-41 says | high, not executed | `Calendar.AsWrittenMissesFreeMondayMorning` | `Calendar.IntendedSlotsInWorkingHours` |

`GetAvailableSlots` keeps the guard as written, because it models the code.
The corrected guard is `Calendar.IntendedSkip`. The lemmas about `SlotsFrom`
hold for every guard, so they hold for the corrected one too.
`Calendar.IntendedFindsFreeMondayMorning` shows that the corrected guard
returns the free slot.

## Left out

- `ics_file` and `events` (app/services/calendar.rb:13-19): `ics_file` memoizes a path under `data/` built from the user name. `events` memoizes the `events` of `Icalendar::Calendar.new(@ics_file)`, an external library object. It reads the instance variable `@ics_file`, which only `ics_file` sets. Events are an input sequence of `(startTime, endTime)` pairs instead.
- `generate_available_slots` (app/services/calendar.rb:62-75): it throws away its `map` result and writes a file. It is I/O only.
- `write_ics_file` (app/services/calendar.rb:77-106): it writes iCalendar text (RFC 5545, sections 3.4 and 3.6.1) to a file by string templating. It is I/O only.
- `AvailabilityController` (app/controllers/availability_controller.rb): HTTP parameter checking and JSON rendering. It also calls `calendar.available_slots`, which does not exist.
- The `Calendar` object: its only state is the user name and two lazily filled caches, `@ics_file` and `@events`. The model passes the events as a parameter, so there is no class.
- Timezones and daylight saving time: `DEFAULT_TIMEZONE` is kept as a constant, but instants are already local wall-clock seconds. The `wday` and `min` of an instant are computed from those seconds.
- The `Time.now` and `Time.now + 7.days` defaults of `start_time` and `end_time`: they read the clock, so callers pass both. The defaults of `duration` and `gap` are the constants `DefaultTimeSlotDuration` and `DefaultTimeSlotGap`, which callers pass explicitly.
- Fractional seconds of `Time` values are not modelled: instants and `duration` are whole seconds.
- `ActiveSupport::Duration` values in calendar units (for example `1.month`) are not modelled: they step by a calendar amount, not by a fixed number of seconds. `duration` is a fixed number of seconds.
- `8.hours.in_minutes` is the float 480.0 in Ruby. The model uses the integer 480, because the comparisons come out the same.
- test/services/calendar_test.rb: it is written against a different version of the class, with constants and methods that `calendar.rb` does not have. Its assertions about working-hour windows, increment alignment and overlap are not behaviour of `calendar.rb`.
