/**
 * The iCal availability rule of the IC assigner: when does a calendar event
 * make a team member unavailable, and the scan of a calendar's events and
 * their recurrences. Instants and durations are integer nanoseconds
 * (module Durations); a `time.Location` is a fixed offset from UTC.
 */
module Calendar {
  import opened Wrappers
  import opened Durations

  /** `DefaultUnavailabilityLimit`: six hours. */
  const DefaultUnavailabilityLimit: int := 6 * Hour

  /** `time.Weekday` numbering: Sunday is 0. */
  const Sunday: int := 0
  const Monday: int := 1
  const Friday: int := 5
  const Saturday: int := 6

  /**
   * Weekday of instant `t` seen at UTC offset `offset`: days are counted
   * from 1970-01-01, a Thursday, with the floor division Go uses for
   * instants before it too.
   */
  function Weekday(t: int, offset: int): (d: int)
    ensures 0 <= d < 7
  {
    ((t + offset) / Day + 4) % 7
  }

  /** Nanoseconds since local midnight of instant `t` at UTC offset `offset`. */
  function TimeOfDay(t: int, offset: int): (s: int)
    ensures 0 <= s < Day
  {
    (t + offset) % Day
  }

  /** How far past `now` an event may start and still block, by local weekday of `now`. */
  function LookAhead(weekday: int): (d: int)
    ensures 12 * Hour <= d <= 60 * Hour
    ensures d > 12 * Hour <==> weekday == Friday || weekday == Saturday || weekday == Sunday
  {
    var base := 12 * Hour;
    if weekday == Friday then base + 2 * 24 * Hour
    else if weekday == Saturday then base + 36 * Hour
    else if weekday == Sunday then base + 12 * Hour
    else base
  }

  /** `icalAvailabilityChecker`: the instant checked, the minimum blocking duration and the UTC offset of the calendar's location. */
  datatype IcalChecker = IcalChecker(now: int, unavailabilityLimit: int, offset: int)
  {
    /** The end of the window in which an event's start blocks. */
    function Horizon(): int
    {
      now + LookAhead(Weekday(now, offset))
    }

    /** `isEventBlockingAvailability(start, end)`. */
    predicate IsEventBlockingAvailability(start: int, end: int)
      ensures IsEventBlockingAvailability(start, end) ==>
        unavailabilityLimit <= end - start && now <= end && start <= now + 60 * Hour
    {
      if end - start < unavailabilityLimit then false
      else if end < now then false
      else start <= Horizon()
    }
  }

  // ---------------------------------------------------------------------------
  // Properties of the blocking rule

  /** An event shorter than the limit never blocks, whenever it happens. */
  lemma ShortEventNeverBlocks(c: IcalChecker, start: int, end: int)
    requires end - start < c.unavailabilityLimit
    ensures !c.IsEventBlockingAvailability(start, end)
  {
  }

  /** An event that ended before `now` never blocks; one ending exactly at `now` may. */
  lemma EndedEventNeverBlocks(c: IcalChecker, start: int, end: int)
    requires end < c.now
    ensures !c.IsEventBlockingAvailability(start, end)
  {
  }

  /** A long enough event that is not over blocks exactly when it starts within the lookahead. */
  lemma BlockingIff(c: IcalChecker, start: int, end: int)
    requires end - start >= c.unavailabilityLimit && end >= c.now
    ensures c.IsEventBlockingAvailability(start, end) <==> start <= c.now + LookAhead(Weekday(c.now, c.offset))
  {
  }

  /** The lookahead is 12 hours, with 48, 36 and 12 more on Friday, Saturday and Sunday. */
  lemma LookAheadTable(weekday: int)
    requires 0 <= weekday < 7
    ensures weekday == Friday ==> LookAhead(weekday) == 60 * Hour
    ensures weekday == Saturday ==> LookAhead(weekday) == 48 * Hour
    ensures weekday == Sunday ==> LookAhead(weekday) == 24 * Hour
    ensures Monday <= weekday < Friday ==> LookAhead(weekday) == 12 * Hour
  {
  }

  /**
   * The location enters only through the weekday of `now`: two checkers at
   * the same instant whose locations agree on the weekday decide alike.
   */
  lemma LocationOnlyThroughWeekday(c1: IcalChecker, c2: IcalChecker, start: int, end: int)
    requires c1.now == c2.now && c1.unavailabilityLimit == c2.unavailabilityLimit
    requires Weekday(c1.now, c1.offset) == Weekday(c2.now, c2.offset)
    ensures c1.IsEventBlockingAvailability(start, end) == c2.IsEventBlockingAvailability(start, end)
  {
  }

  /** Whole days do not move the time of day and advance the weekday by one per day. */
  lemma AddDays(t: int, offset: int, k: nat)
    ensures TimeOfDay(t + k * Day, offset) == TimeOfDay(t, offset)
    ensures Weekday(t + k * Day, offset) == (Weekday(t, offset) + k) % 7
  {
    var x := t + offset;
    var q, r := x / Day, x % Day;
    assert x == q * Day + r;
    assert x + k * Day == (q + k) * Day + r;
    DivModUnique(x + k * Day, q + k, r);
    ShiftWeekday(q + 4, k);
  }

  /** Adding `k` days before or after reducing modulo the week gives the same weekday. */
  lemma ShiftWeekday(a: int, k: nat)
    ensures (a + k) % 7 == (a % 7 + k) % 7
  {
    var m := a / 7;
    assert a == 7 * m + a % 7;
    assert a + k == 7 * m + (a % 7 + k);
  }

  lemma DivModUnique(x: int, q: int, r: int)
    requires 0 <= r < Day && x == q * Day + r
    ensures x / Day == q && x % Day == r
  {
  }

  /**
   * The weekend extension reaches Monday: on Saturday and Sunday the horizon
   * is the same local time on Monday, and from Friday it is Sunday or Monday.
   */
  lemma WeekendHorizonReachesMonday(c: IcalChecker)
    ensures Weekday(c.now, c.offset) in {Saturday, Sunday} ==>
      Weekday(c.Horizon(), c.offset) == Monday && TimeOfDay(c.Horizon(), c.offset) == TimeOfDay(c.now, c.offset)
    ensures Weekday(c.now, c.offset) == Friday ==>
      Weekday(c.Horizon(), c.offset) in {Sunday, Monday}
  {
    var w := Weekday(c.now, c.offset);
    if w == Saturday {
      AddDays(c.now, c.offset, 2);
    } else if w == Sunday {
      AddDays(c.now, c.offset, 1);
    } else if w == Friday {
      FridayHorizon(c.now, c.offset);
    }
  }

  lemma FridayHorizon(now: int, offset: int)
    requires Weekday(now, offset) == Friday
    ensures Weekday(now + 60 * Hour, offset) in {Sunday, Monday}
  {
    var h := now + 2 * Day;
    AddDays(now, offset, 2);
    var s := TimeOfDay(h, offset);
    var x := h + offset;
    assert x == (x / Day) * Day + s;
    if s < 12 * Hour {
      DivModUnique(x + 12 * Hour, x / Day, s + 12 * Hour);
    } else {
      DivModUnique(x + 12 * Hour, x / Day + 1, s - 12 * Hour);
    }
  }

  // ---------------------------------------------------------------------------
  // checkEvents

  /** A calendar event as `checkEvents` sees it. */
  datatype Event = Event(
    /** The TRANSP property, when present. */
    transparency: Option<string>,
    /** Start and end, or None when either cannot be parsed. */
    times: Option<(int, int)>,
    /** The starts of the recurrence set in ascending order, or None without a recurrence rule or when it cannot be read. */
    recurrence: Option<seq<int>>)
  {
    predicate IsTransparent()
    {
      transparency == Some("TRANSPARENT")
    }
  }

  /** `Between(after, before, true)` of a recurrence set: the occurrences in `[after, before]`, in order. */
  function Between(occurrences: seq<int>, after: int, before: int): (r: seq<int>)
    ensures forall o :: o in r <==> o in occurrences && after <= o <= before
    decreases |occurrences|
  {
    if occurrences == [] then []
    else
      var rest := Between(occurrences[1..], after, before);
      if after <= occurrences[0] <= before then [occurrences[0]] + rest else rest
  }

  /** The recurrence occurrences of an event that `checkEvents` looks at: those within twice its duration of `now`. */
  function Occurrences(occurrences: seq<int>, now: int, start: int, end: int): (r: seq<int>)
    ensures forall o :: o in r <==> o in occurrences && now - 2 * (end - start) <= o <= now + 2 * (end - start)
  {
    var d := end - start;
    Between(occurrences, now - 2 * d, now + 2 * d)
  }

  /** Some copy of the event, original or recurrence, blocks availability. */
  ghost predicate EventBlocks(c: IcalChecker, e: Event)
    ensures EventBlocks(c, e) ==>
      !e.IsTransparent() && e.times.Some? && c.unavailabilityLimit <= e.times.value.1 - e.times.value.0
  {
    !e.IsTransparent() && e.times.Some? &&
    var (start, end) := e.times.value;
    c.IsEventBlockingAvailability(start, end) ||
    (e.recurrence.Some? &&
     exists o :: o in Occurrences(e.recurrence.value, c.now, start, end) && c.IsEventBlockingAvailability(o, o + (end - start)))
  }

  /** Transparent events and events whose times cannot be parsed never block. */
  lemma SkippedEventsNeverBlock(c: IcalChecker, e: Event)
    requires e.IsTransparent() || e.times.None?
    ensures !EventBlocks(c, e)
  {
  }

  /**
   * An occurrence is looked at only when it starts within twice the event's
   * duration of `now`, whatever else the recurrence set holds.
   */
  lemma OnlyNearbyOccurrencesBlock(c: IcalChecker, e: Event)
    requires EventBlocks(c, e)
    requires e.times.Some? && var (start, end) := e.times.value; !c.IsEventBlockingAvailability(start, end)
    ensures e.recurrence.Some?
    ensures var (start, end) := e.times.value;
      exists o :: o in e.recurrence.value && c.now - 2 * (end - start) <= o <= c.now + 2 * (end - start) &&
        c.IsEventBlockingAvailability(o, o + (end - start))
  {
  }

  /**
   * `checkEvents`: true iff no event blocks, in its own times or in one of
   * its recurrence occurrences near `now`. Its error result is always nil
   * and is not modelled.
   */
  method CheckEvents(events: seq<Event>, now: int, offset: int, unavailabilityLimit: int) returns (available: bool)
    ensures available <==> forall e :: e in events ==> !EventBlocks(IcalChecker(now, unavailabilityLimit, offset), e)
  {
    var checker := IcalChecker(now, unavailabilityLimit, offset);
    for i := 0 to |events|
      invariant forall k :: 0 <= k < i ==> !EventBlocks(checker, events[k])
    {
      var event := events[i];
      if event.IsTransparent() {
        continue;
      }
      if event.times.None? {
        continue;
      }
      var (start, end) := event.times.value;
      if checker.IsEventBlockingAvailability(start, end) {
        assert events[i] in events;
        return false;
      }
      if event.recurrence.None? {
        continue;
      }
      var completeDuration := end - start;
      var occurrences := Between(event.recurrence.value, now - 2 * completeDuration, now + 2 * completeDuration);
      for j := 0 to |occurrences|
        invariant forall k :: 0 <= k < j ==> !checker.IsEventBlockingAvailability(occurrences[k], occurrences[k] + completeDuration)
      {
        var o := occurrences[j];
        if checker.IsEventBlockingAvailability(o, o + completeDuration) {
          assert o in Occurrences(event.recurrence.value, now, start, end);
          assert EventBlocks(checker, events[i]) && events[i] in events;
          return false;
        }
      }
    }
    return true;
  }

  // ---------------------------------------------------------------------------
  // The cases of the package's tests (6 hour limit)

  const NewYorkSummer: int := -4 * Hour
  const Melbourne: int := 10 * Hour
  const LosAngelesWinter: int := -8 * Hour

  /** PTO from 2023-08-23 19:00Z to 2023-08-24 19:00Z, seen from New York. */
  lemma WholeDayPto()
    ensures !IcalChecker(1692772200 * Second, 6 * Hour, NewYorkSummer).IsEventBlockingAvailability(1692817200 * Second, 1692903600 * Second)
    ensures IcalChecker(1692799200 * Second, 6 * Hour, NewYorkSummer).IsEventBlockingAvailability(1692817200 * Second, 1692903600 * Second)
    ensures !IcalChecker(1692904200 * Second, 6 * Hour, NewYorkSummer).IsEventBlockingAvailability(1692817200 * Second, 1692903600 * Second)
  {
    assert Weekday(1692772200 * Second, NewYorkSummer) == 3;
    assert Weekday(1692799200 * Second, NewYorkSummer) == 3;
  }

  /** PTO from 2023-08-27 13:00Z to 2023-09-01 13:00Z, seen from Melbourne on Friday morning and evening. */
  lemma FridayBeforePto()
    ensures !IcalChecker(1692910800 * Second, 6 * Hour, Melbourne).IsEventBlockingAvailability(1693141200 * Second, 1693573200 * Second)
    ensures IcalChecker(1692957600 * Second, 6 * Hour, Melbourne).IsEventBlockingAvailability(1693141200 * Second, 1693573200 * Second)
    ensures !IcalChecker(1693782000 * Second, 6 * Hour, Melbourne).IsEventBlockingAvailability(1693141200 * Second, 1693573200 * Second)
  {
    assert Weekday(1692910800 * Second, Melbourne) == Friday;
    assert Weekday(1692957600 * Second, Melbourne) == Friday;
  }

  /** A 9h20m opaque event from 2023-12-07 15:00Z, checked at 16:00Z in Los Angeles: unavailable. */
  lemma OpaqueEventMakesUnavailable(available: bool)
    requires available <==> forall e :: e in [Event(Some("OPAQUE"), Some((1701961200 * Second, 1701994800 * Second)), None)] ==>
      !EventBlocks(IcalChecker(1701964800 * Second, DefaultUnavailabilityLimit, LosAngelesWinter), e)
    ensures !available
  {
    var e := Event(Some("OPAQUE"), Some((1701961200 * Second, 1701994800 * Second)), None);
    assert e in [e];
    assert Weekday(1701964800 * Second, LosAngelesWinter) == 4;
    assert IcalChecker(1701964800 * Second, DefaultUnavailabilityLimit, LosAngelesWinter).IsEventBlockingAvailability(1701961200 * Second, 1701994800 * Second);
  }
}
