/** Time as the calendar service sees it.

    An instant is a whole number of seconds of local wall-clock time since
    1970-01-01 00:00, which was a Thursday. Weekdays are numbered as Ruby's
    `Time#wday` numbers them: 0 is Sunday, 1 Monday, ..., 6 Saturday.
 */
module WallClock {

  const SecondsPerMinute: int := 60
  const MinutesPerHour: int := 60
  const MinutesPerDay: int := 24 * 60
  const SecondsPerDay: int := 24 * 60 * 60

  /** Weekday of instant `t` (`Time#wday`). */
  function Weekday(t: int): (d: int)
    ensures 0 <= d < 7
  {
    (t / SecondsPerDay + 4) % 7
  }

  /** Minute of the hour of instant `t` (`Time#min`). */
  function MinuteOfHour(t: int): (m: int)
    ensures 0 <= m < MinutesPerHour
  {
    (t / SecondsPerMinute) % MinutesPerHour
  }

  /** Minutes since midnight of instant `t` (`hour * 60 + min`). */
  function MinuteOfDay(t: int): (m: int)
    ensures 0 <= m < MinutesPerDay
  {
    (t / SecondsPerMinute) % MinutesPerDay
  }
}

/** The slot enumerator of the `Calendar` service: the event-containment test
    `check_availability` and the stepping loop `get_available_slots`.
 */
module Calendar {
  import opened WallClock

  const DefaultTimeSlotDuration: int := 30 * SecondsPerMinute
  const DefaultTimeSlotGap: int := 15 * SecondsPerMinute
  const DefaultTimezone: string := "America/Los_Angeles"
  const DefaultWorkingDays: seq<int> := [1, 2, 3, 4, 5]
  /** 8 AM and 6 PM, in minutes since midnight. */
  const DefaultStartTime: int := 8 * MinutesPerHour
  const DefaultEndTime: int := 18 * MinutesPerHour

  /** A calendar event, reduced to the two instants the service reads. */
  datatype Event = Event(startTime: int, endTime: int)

  /** One entry of the list `get_available_slots` returns. */
  datatype Slot = Slot(startTime: int, endTime: int)

  /** What `check_availability` returns: `false` when an event covers the
      range, otherwise (the value of `events.each`) the events array itself,
      which Ruby treats as true even when it is empty. */
  datatype Availability = Blocked | Unblocked(events: seq<Event>)
  {
    predicate Truthy() { Unblocked? }
  }

  /** Instant `x` lies within event `ev`, ends included. */
  predicate During(ev: Event, x: int)
  {
    ev.startTime <= x <= ev.endTime
  }

  /** Event `ev` fully covers the closed range from `s` to `e`: for a
      non-empty range, both of its ends lie within the event. */
  predicate Covers(ev: Event, s: int, e: int)
    ensures s <= e ==> (Covers(ev, s, e) <==> During(ev, s) && During(ev, e))
  {
    ev.startTime <= s && ev.endTime >= e
  }

  /** A non-empty range is covered exactly when every instant of it lies
      within the event. */
  lemma CoversContainsRange(ev: Event, s: int, e: int)
    requires s <= e
    ensures Covers(ev, s, e) <==> forall x :: s <= x <= e ==> During(ev, x)
  {
  }

  predicate SomeEventCovers(events: seq<Event>, s: int, e: int)
  {
    exists i :: 0 <= i < |events| && Covers(events[i], s, e)
  }

  /** The scan of `events.each` from position `i` on, returning at the first
      covering event. */
  function ScanFrom(events: seq<Event>, i: nat, s: int, e: int): (r: Availability)
    requires i <= |events|
    ensures r.Blocked? <==> exists j :: i <= j < |events| && Covers(events[j], s, e)
    ensures r.Unblocked? ==> r.events == events
    decreases |events| - i
  {
    if i == |events| then Unblocked(events)
    else if Covers(events[i], s, e) then Blocked
    else ScanFrom(events, i + 1, s, e)
  }

  /** `check_availability(s, e)`: falsy exactly when one event covers the
      whole range; an event that only overlaps part of it does not block. */
  function CheckAvailability(events: seq<Event>, s: int, e: int): (r: Availability)
    ensures !r.Truthy() <==> SomeEventCovers(events, s, e)
    ensures r.Truthy() ==> r == Unblocked(events)
  {
    ScanFrom(events, 0, s, e)
  }

  /** A range blocked by `check_availability` stays blocked when it shrinks. */
  lemma BlockedSubrange(events: seq<Event>, s: int, e: int, s2: int, e2: int)
    requires !CheckAvailability(events, s, e).Truthy()
    requires s <= s2 && e2 <= e
    ensures !CheckAvailability(events, s2, e2).Truthy()
  {
  }

  /** The skip condition of `get_available_slots` exactly as written: it
      compares the minute of the HOUR with bounds given in minutes of the DAY.
      The minute of the hour is below 60, so it is always below 480 and the
      condition holds at every instant. */
  predicate AsWrittenSkip(t: int)
    ensures AsWrittenSkip(t)
  {
    Weekday(t) !in DefaultWorkingDays
    || MinuteOfHour(t) < DefaultStartTime
    || MinuteOfHour(t) > DefaultEndTime
  }

  /** The skip condition the comment above it describes: not a working day,
      or outside 8 AM to 6 PM by the minute of the day. */
  predicate IntendedSkip(t: int)
  {
    Weekday(t) !in DefaultWorkingDays
    || MinuteOfDay(t) < DefaultStartTime
    || MinuteOfDay(t) > DefaultEndTime
  }

  /** The list the loop of `get_available_slots` builds from `current_time == t`
      on, for a skip condition `skip`. It holds at most one slot per pass. */
  function SlotsFrom(events: seq<Event>, t: int, endTime: int, duration: int, skip: int -> bool): (r: seq<Slot>)
    requires t < endTime ==> duration > 0
    ensures |r| <= Iterations(t, endTime, duration)
    decreases endTime - t
  {
    if t >= endTime then []
    else if skip(t) then SlotsFrom(events, t + duration, endTime, duration, skip)
    else if CheckAvailability(events, t, t + duration).Truthy() then
      [Slot(t, t + duration)] + SlotsFrom(events, t + duration, endTime, duration, skip)
    else SlotsFrom(events, t + duration, endTime, duration, skip)
  }

  /** Number of passes the loop makes from `current_time == t`. */
  function Iterations(t: int, endTime: int, duration: int): nat
    requires t < endTime ==> duration > 0
    decreases endTime - t
  {
    if t >= endTime then 0 else 1 + Iterations(t + duration, endTime, duration)
  }

  /** `x` is one of the instants `t`, `t + duration`, `t + 2 * duration`, ... */
  predicate OnStep(x: int, t: int, duration: int)
  {
    duration > 0 && t <= x && (x - t) % duration == 0
  }

  /** The loop of `get_available_slots`: from `start_time` in steps of
      `duration` while below `end_time`, skip the instants `skip` names and
      append a slot at each other instant `check_availability` lets through. */
  method EnumerateSlots(events: seq<Event>, startTime: int, endTime: int, duration: int, skip: int -> bool)
    returns (availableSlots: seq<Slot>, ghost passes: nat)
    requires startTime < endTime ==> duration > 0
    ensures availableSlots == SlotsFrom(events, startTime, endTime, duration, skip)
    ensures passes == Iterations(startTime, endTime, duration)
    ensures startTime < endTime ==> passes == (endTime - startTime + duration - 1) / duration
    ensures startTime >= endTime ==> availableSlots == [] && passes == 0
    ensures |availableSlots| <= passes
  {
    availableSlots := [];
    var currentTime := startTime;
    passes := 0;
    while currentTime < endTime
      invariant startTime <= currentTime
      invariant currentTime < endTime ==> duration > 0
      invariant availableSlots + SlotsFrom(events, currentTime, endTime, duration, skip)
             == SlotsFrom(events, startTime, endTime, duration, skip)
      invariant passes + Iterations(currentTime, endTime, duration) == Iterations(startTime, endTime, duration)
      decreases endTime - currentTime
    {
      if skip(currentTime) {
        currentTime := currentTime + duration;
        passes := passes + 1;
        continue;
      }
      if CheckAvailability(events, currentTime, currentTime + duration).Truthy() {
        var availableSlot := Slot(currentTime, currentTime + duration);
        availableSlots := availableSlots + [availableSlot];
      }
      currentTime := currentTime + duration;
      passes := passes + 1;
    }
    IterationsIsCeiling(startTime, endTime, duration);
  }

  /** `get_available_slots(start_time, end_time, duration, gap)`: the loop
      with the skip condition as written. `gap` is never read, and the
      result is always empty. */
  method GetAvailableSlots(events: seq<Event>, startTime: int, endTime: int, duration: int, gap: int)
    returns (availableSlots: seq<Slot>)
    requires startTime < endTime ==> duration > 0
    ensures availableSlots == SlotsFrom(events, startTime, endTime, duration, AsWrittenSkip)
    ensures availableSlots == []
  {
    ghost var passes;
    availableSlots, passes := EnumerateSlots(events, startTime, endTime, duration, AsWrittenSkip);
    AsWrittenFindsNothing(events, startTime, endTime, duration);
  }

  /** `m / d` is the `q` with `q * d <= m < q * d + d`. */
  lemma DivIsUnique(m: int, d: int, q: int)
    requires d > 0 && q * d <= m < q * d + d
    ensures m / d == q
  {
    var k := m / d;
    assert k * d <= m < k * d + d;
    if k > q {
      MulAtLeast(k - q, d);
      assert false;
    } else if k < q {
      MulAtLeast(q - k, d);
      assert false;
    }
  }

  lemma MulAtLeast(x: int, d: int)
    requires x >= 1 && d > 0
    ensures x * d >= d
  {
  }

  /** The loop runs `ceil((end_time - start_time) / duration)` times. */
  lemma {:induction false} IterationsIsCeiling(t: int, endTime: int, duration: int)
    requires t < endTime ==> duration > 0
    ensures t < endTime ==> Iterations(t, endTime, duration) == (endTime - t + duration - 1) / duration
    ensures t >= endTime ==> Iterations(t, endTime, duration) == 0
    decreases endTime - t
  {
    if t < endTime {
      var n := endTime - t;
      IterationsIsCeiling(t + duration, endTime, duration);
      if t + duration >= endTime {
        DivIsUnique(n + duration - 1, duration, 1);
      } else {
        var q := (n - 1) / duration;
        DivIsUnique(n - 1, duration, q);
        DivIsUnique(n + duration - 1, duration, q + 1);
      }
    }
  }

  /** Stepping by `duration` keeps to the same grid of instants. */
  lemma OnStepShift(x: int, t: int, duration: int)
    requires duration > 0 && x >= t + duration
    ensures OnStep(x, t, duration) <==> OnStep(x, t + duration, duration)
  {
    var a := x - t - duration;
    DivIsUnique(a, duration, a / duration);
    DivIsUnique(a + duration, duration, a / duration + 1);
  }

  /** The loop appends a slot at instant `x`: not skipped, and
      `check_availability` lets it through. */
  predicate Offered(events: seq<Event>, x: int, duration: int, skip: int -> bool)
  {
    !skip(x) && CheckAvailability(events, x, x + duration).Truthy()
  }

  /** What one pass of the loop at instant `t` appends. */
  function Appended(events: seq<Event>, t: int, duration: int, skip: int -> bool): seq<Slot>
  {
    if Offered(events, t, duration, skip) then [Slot(t, t + duration)] else []
  }

  lemma SlotsFromUnfold(events: seq<Event>, t: int, endTime: int, duration: int, skip: int -> bool)
    requires t < endTime && duration > 0
    ensures SlotsFrom(events, t, endTime, duration, skip)
            == Appended(events, t, duration, skip) + SlotsFrom(events, t + duration, endTime, duration, skip)
  {
  }

  lemma {:induction false} SlotsFromOffered(events: seq<Event>, t: int, endTime: int, duration: int, skip: int -> bool, slot: Slot)
    requires t < endTime ==> duration > 0
    ensures slot in SlotsFrom(events, t, endTime, duration, skip) <==>
              slot.startTime < endTime
              && OnStep(slot.startTime, t, duration)
              && slot.endTime == slot.startTime + duration
              && Offered(events, slot.startTime, duration, skip)
    decreases endTime - t
  {
    if t < endTime {
      SlotsFromUnfold(events, t, endTime, duration, skip);
      SlotsFromOffered(events, t + duration, endTime, duration, skip, slot);
      var x := slot.startTime;
      if x >= t + duration {
        OnStepShift(x, t, duration);
        assert slot !in Appended(events, t, duration, skip);
      } else if x == t {
        assert OnStep(x, t, duration) && !OnStep(x, t + duration, duration);
      } else if x > t {
        DivIsUnique(x - t, duration, 0);
        assert !OnStep(x, t, duration);
      }
    }
  }

  /** A slot is in the list exactly when it starts on a step inside the
      range, lasts `duration`, is not skipped and no event covers it. */
  lemma SlotsFromMember(events: seq<Event>, t: int, endTime: int, duration: int, skip: int -> bool, slot: Slot)
    requires t < endTime ==> duration > 0
    ensures slot in SlotsFrom(events, t, endTime, duration, skip) <==>
              slot.startTime < endTime
              && OnStep(slot.startTime, t, duration)
              && slot.endTime == slot.startTime + duration
              && !skip(slot.startTime)
              && !SomeEventCovers(events, slot.startTime, slot.endTime)
  {
    SlotsFromOffered(events, t, endTime, duration, skip, slot);
  }

  /** Every slot lasts exactly `duration` and starts on a step inside the range. */
  lemma SlotsFromShape(events: seq<Event>, t: int, endTime: int, duration: int, skip: int -> bool)
    requires t < endTime ==> duration > 0
    ensures forall slot <- SlotsFrom(events, t, endTime, duration, skip) ::
              slot.endTime - slot.startTime == duration
              && t <= slot.startTime < endTime
              && (slot.startTime - t) % duration == 0
              && !skip(slot.startTime)
              && !SomeEventCovers(events, slot.startTime, slot.endTime)
  {
    forall slot <- SlotsFrom(events, t, endTime, duration, skip)
      ensures slot.endTime - slot.startTime == duration
      ensures t <= slot.startTime < endTime && (slot.startTime - t) % duration == 0
      ensures !skip(slot.startTime) && !SomeEventCovers(events, slot.startTime, slot.endTime)
    {
      SlotsFromMember(events, t, endTime, duration, skip, slot);
    }
  }

  /** Slots in strictly increasing start order, none overlapping the next. */
  predicate Ordered(slots: seq<Slot>)
  {
    forall i, j :: 0 <= i < j < |slots| ==>
      slots[i].startTime < slots[j].startTime && slots[i].endTime <= slots[j].startTime
  }

  lemma OrderedPrepend(first: seq<Slot>, rest: seq<Slot>, bound: int)
    requires |first| <= 1 && Ordered(rest)
    requires forall slot <- first :: slot.startTime < bound && slot.endTime <= bound
    requires forall slot <- rest :: slot.startTime >= bound
    ensures Ordered(first + rest)
  {
  }

  /** No slot starts before the instant the walk starts from. */
  lemma {:induction false} SlotsFromStartAtLeast(events: seq<Event>, t: int, endTime: int, duration: int, skip: int -> bool)
    requires t < endTime ==> duration > 0
    ensures forall slot <- SlotsFrom(events, t, endTime, duration, skip) :: slot.startTime >= t
    decreases endTime - t
  {
    if t < endTime {
      SlotsFromStartAtLeast(events, t + duration, endTime, duration, skip);
    }
  }

  /** Slots come out in strictly increasing order and never overlap. */
  lemma {:induction false} SlotsFromOrdered(events: seq<Event>, t: int, endTime: int, duration: int, skip: int -> bool)
    requires t < endTime ==> duration > 0
    ensures Ordered(SlotsFrom(events, t, endTime, duration, skip))
    decreases endTime - t
  {
    if t < endTime {
      SlotsFromOrdered(events, t + duration, endTime, duration, skip);
      SlotsFromStartAtLeast(events, t + duration, endTime, duration, skip);
      SlotsFromUnfold(events, t, endTime, duration, skip);
      var first := Appended(events, t, duration, skip);
      assert first == [] || first == [Slot(t, t + duration)];
      OrderedPrepend(first, SlotsFrom(events, t + duration, endTime, duration, skip), t + duration);
    }
  }

  /** With the skip condition as written the loop never appends a slot. */
  lemma {:induction false} AsWrittenFindsNothing(events: seq<Event>, t: int, endTime: int, duration: int)
    requires t < endTime ==> duration > 0
    ensures SlotsFrom(events, t, endTime, duration, AsWrittenSkip) == []
    decreases endTime - t
  {
    if t < endTime {
      AsWrittenFindsNothing(events, t + duration, endTime, duration);
    }
  }

  /** Monday 1970-01-05 09:00. */
  const MondayNineAm: int := 4 * SecondsPerDay + 9 * 60 * SecondsPerMinute

  /** A free half hour on a Monday morning, which the code as written does not offer. */
  lemma AsWrittenMissesFreeMondayMorning()
    ensures !IntendedSkip(MondayNineAm)
    ensures CheckAvailability([], MondayNineAm, MondayNineAm + DefaultTimeSlotDuration).Truthy()
    ensures SlotsFrom([], MondayNineAm, MondayNineAm + DefaultTimeSlotDuration, DefaultTimeSlotDuration, AsWrittenSkip) == []
  {
  }

  /** With the intended skip condition the same free half hour is offered. */
  lemma IntendedFindsFreeMondayMorning()
    ensures SlotsFrom([], MondayNineAm, MondayNineAm + DefaultTimeSlotDuration, DefaultTimeSlotDuration, IntendedSkip)
            == [Slot(MondayNineAm, MondayNineAm + DefaultTimeSlotDuration)]
  {
  }

  /** With the intended skip condition every slot starts on a working day
      between 8 AM and 6 PM, lasts `duration` and is covered by no event. */
  lemma IntendedSlotsInWorkingHours(events: seq<Event>, t: int, endTime: int, duration: int)
    requires t < endTime ==> duration > 0
    ensures forall slot <- SlotsFrom(events, t, endTime, duration, IntendedSkip) ::
              Weekday(slot.startTime) in DefaultWorkingDays
              && DefaultStartTime <= MinuteOfDay(slot.startTime) <= DefaultEndTime
              && slot.endTime - slot.startTime == duration
              && !SomeEventCovers(events, slot.startTime, slot.endTime)
  {
    SlotsFromShape(events, t, endTime, duration, IntendedSkip);
  }
}
