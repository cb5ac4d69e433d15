/**
 * Time-based choice of the content folder: a list of schedules, each with
 * an optional weekday and an optional half-open daily window, resolved
 * first-match with a default fallback, and a tiny state machine that
 * reports when the resolved schedule changes.
 *
 * The clock is a parameter: an `Instant` is a weekday (0 = Monday,
 * 6 = Sunday) and a minute of the day.  Schedule windows are whole minutes
 * (`HH:MM`), so comparing a clock time against them at minute resolution
 * gives the same answers as comparing the full time of day.
 */
module Scheduling {
  import opened Wrappers
  import opened Text

  type Weekday = d: int | 0 <= d < 7
  type Minute = m: int | 0 <= m < 1440

  datatype Instant = Instant(weekday: Weekday, minute: Minute)

  /** `HH:MM` as a minute of the day. */
  function At(hour: int, minute: int): (r: Minute)
    requires 0 <= hour <= 23 && 0 <= minute <= 59
    ensures r / 60 == hour && r % 60 == minute
  {
    hour * 60 + minute
  }

  datatype Schedule = Schedule(
    name: string,
    folder: string,
    transitionType: string,
    transitionOffset: real,
    dayOfWeek: Option<int>,
    startTime: Option<Minute>,
    endTime: Option<Minute>)
  {
    /** Whether the schedule applies at `now`: the weekday must match when
        one is set; with both ends set the window is `[start, end)`,
        wrapping past midnight when start is after end; with one end or
        none set there is no time restriction. */
    predicate IsActive(now: Instant) {
      if dayOfWeek.Some? && now.weekday != dayOfWeek.value then false
      else if startTime.None? && endTime.None? then true
      else if startTime.Some? && endTime.Some? then
        if startTime.value <= endTime.value then startTime.value <= now.minute < endTime.value
        else now.minute >= startTime.value || now.minute < endTime.value
      else true
    }
  }

  /** A schedule tied to a weekday is off on every other weekday. */
  lemma OtherWeekdayInactive(s: Schedule, now: Instant)
    requires s.dayOfWeek.Some? && now.weekday != s.dayOfWeek.value
    ensures !s.IsActive(now)
  {
  }

  /** With no window, a schedule is on at every time of its allowed days. */
  lemma NoWindowAlwaysOnItsDays(s: Schedule, now: Instant)
    requires s.startTime.None? && s.endTime.None?
    requires s.dayOfWeek.None? || s.dayOfWeek.value == now.weekday
    ensures s.IsActive(now)
  {
  }

  /** A same-day window is half-open: on exactly from start up to, not
      including, end; so it is never on when start equals end. */
  lemma SameDayWindow(s: Schedule, now: Instant)
    requires s.dayOfWeek.None? || s.dayOfWeek.value == now.weekday
    requires s.startTime.Some? && s.endTime.Some? && s.startTime.value <= s.endTime.value
    ensures s.IsActive(now) <==> s.startTime.value <= now.minute < s.endTime.value
    ensures s.startTime.value == s.endTime.value ==> !s.IsActive(now)
  {
  }

  /** A window whose start is after its end wraps past midnight. */
  lemma OvernightWindow(s: Schedule, now: Instant)
    requires s.dayOfWeek.None? || s.dayOfWeek.value == now.weekday
    requires s.startTime.Some? && s.endTime.Some? && s.startTime.value > s.endTime.value
    ensures s.IsActive(now) <==> (now.minute >= s.startTime.value || now.minute < s.endTime.value)
  {
  }

  /** With only one end of the window set, the time is not checked. */
  lemma HalfWindowIgnored(s: Schedule, now: Instant)
    requires s.dayOfWeek.None? || s.dayOfWeek.value == now.weekday
    requires s.startTime.Some? != s.endTime.Some?
    ensures s.IsActive(now)
  {
  }

  /** Settings of the Sunday service schedule. */
  datatype ServiceConfig = ServiceConfig(
    folder: string,
    transition: string,
    transitionOffset: real,
    day: int,
    startText: string,
    endText: string)

  /** Settings of the fallback schedule. */
  datatype DefaultConfig = DefaultConfig(folder: string, transition: string, transitionOffset: real)

  /** The window `[08:00, 13:30)` on Sundays, as the shipped settings describe it. */
  lemma SundayServiceCases(folder: string, transition: string, offset: real)
    ensures var s := Schedule("Sunday Service", folder, transition, offset, Some(6), Some(At(8, 0)), Some(At(13, 30)));
      && !s.IsActive(Instant(6, At(7, 59)))
      && s.IsActive(Instant(6, At(8, 0)))
      && s.IsActive(Instant(6, At(10, 30)))
      && s.IsActive(Instant(6, At(13, 29)))
      && !s.IsActive(Instant(6, At(13, 30)))
      && !s.IsActive(Instant(0, At(10, 0)))
  {
  }

  /** The fallback: every day, every time. */
  function DefaultSchedule(c: DefaultConfig): (r: Schedule)
    ensures r.name == "Default" && r.folder == c.folder
    ensures r.transitionType == c.transition && r.transitionOffset == c.transitionOffset
    ensures forall now :: r.IsActive(now)
  {
    Schedule("Default", c.folder, c.transition, c.transitionOffset, None, None, None)
  }

  /** Text before the first `:`. */
  function HourPart(s: string): string {
    s[..FirstIndex(s, ':')]
  }

  /** Text after the first `:`. */
  function MinutePart(s: string): string {
    if FirstIndex(s, ':') < |s| then s[FirstIndex(s, ':') + 1..] else ""
  }

  /** `HH:MM` parsing: exactly two `:`-separated parts, each an integer as
      `int()` reads it, hour in 0..23 and minute in 0..59; otherwise `None`. */
  function ParseTime(s: string): (r: Option<Minute>)
    ensures Count(s, ':') != 1 ==> r.None?
    ensures r.Some? ==>
      ParseInt(HourPart(s)) == Some(r.value / 60) && ParseInt(MinutePart(s)) == Some(r.value % 60)
  {
    if Count(s, ':') != 1 then None
    else
      var hour, minute := ParseInt(HourPart(s)), ParseInt(MinutePart(s));
      if hour.Some? && minute.Some? && 0 <= hour.value <= 23 && 0 <= minute.value <= 59
      then Some(At(hour.value, minute.value))
      else None
  }

  /** Every two-part text with an hour and minute in range is accepted. */
  lemma ParseTimeAccepts(s: string, hour: int, minute: int)
    requires Count(s, ':') == 1
    requires ParseInt(HourPart(s)) == Some(hour) && ParseInt(MinutePart(s)) == Some(minute)
    requires 0 <= hour <= 23 && 0 <= minute <= 59
    ensures ParseTime(s) == Some(At(hour, minute))
  {
  }

  /** Out-of-range hours or minutes are refused. */
  lemma ParseTimeRejectsRange(s: string, hour: int, minute: int)
    requires ParseInt(HourPart(s)) == Some(hour) && ParseInt(MinutePart(s)) == Some(minute)
    requires !(0 <= hour <= 23 && 0 <= minute <= 59)
    ensures ParseTime(s) == None
  {
  }

  /** Zero-padded `HH:MM` text reads back as that time of day. */
  lemma {:induction false} ParseTimeRoundTrip(hour: nat, minute: nat)
    requires hour <= 23 && minute <= 59
    ensures ParseTime(TwoDigits(hour) + ":" + TwoDigits(minute)) == Some(At(hour, minute))
  {
    var h, m := TwoDigits(hour), TwoDigits(minute);
    var s := h + ":" + m;
    assert s == [h[0], h[1], ':', m[0], m[1]];
    assert Count(s, ':') == 1 by {
      CountAppend(h + ":", m, ':');
      CountAppend(h, ":", ':');
      assert ':' !in h && ':' !in m;
      assert Count(":", ':') == 1 by { assert ":"[1..] == []; }
    }
    assert FirstIndex(s, ':') == 2;
    assert HourPart(s) == h && MinutePart(s) == m;
    ParseTwoDigits(hour);
    ParseTwoDigits(minute);
    ParseTimeAccepts(s, hour, minute);
  }

  /** The Sunday service schedule, or `None` when either time is malformed. */
  function ServiceSchedule(c: ServiceConfig): (r: Option<Schedule>)
    ensures r.Some? <==> ParseTime(c.startText).Some? && ParseTime(c.endText).Some?
    ensures r.Some? ==> r.value.name == "Sunday Service" && r.value.dayOfWeek == Some(c.day)
    ensures r.Some? ==> r.value.startTime == ParseTime(c.startText) && r.value.endTime == ParseTime(c.endText)
  {
    match (ParseTime(c.startText), ParseTime(c.endText))
    case (Some(start), Some(end)) =>
      Some(Schedule("Sunday Service", c.folder, c.transition, c.transitionOffset, Some(c.day), Some(start), Some(end)))
    case _ => None
  }

  /** Index of the first schedule active at `now`, or `|schedules|`. */
  function FirstActive(schedules: seq<Schedule>, now: Instant): (r: nat)
    ensures r <= |schedules|
    ensures r < |schedules| ==> schedules[r].IsActive(now)
    ensures forall j :: 0 <= j < r ==> !schedules[j].IsActive(now)
  {
    if schedules == [] then 0
    else if schedules[0].IsActive(now) then 0
    else 1 + FirstActive(schedules[1..], now)
  }

  /** The schedule in force: the first active one in list order, or the
      default when none is. */
  function ActiveSchedule(schedules: seq<Schedule>, default: Schedule, now: Instant): (r: Schedule)
    ensures r in schedules ==> r.IsActive(now) || r == default
    ensures (forall s :: s in schedules ==> !s.IsActive(now)) ==> r == default
    ensures forall i :: 0 <= i < |schedules| && schedules[i].IsActive(now) ==>
      exists j :: 0 <= j <= i && r == schedules[j] && schedules[j].IsActive(now)
  {
    var i := FirstActive(schedules, now);
    if i < |schedules| then schedules[i] else default
  }

  /** A specific schedule that is active wins over the default. */
  lemma ActiveBeatsDefault(schedules: seq<Schedule>, default: Schedule, now: Instant, i: nat)
    requires i < |schedules| && schedules[i].IsActive(now)
    requires forall j :: 0 <= j < i ==> !schedules[j].IsActive(now)
    ensures ActiveSchedule(schedules, default, now) == schedules[i]
  {
  }

  class Scheduler {
    var schedules: seq<Schedule>
    var defaultSchedule: Schedule
    var current: Option<Schedule>

    /** The schedule in force at `now`. */
    function ActiveAt(now: Instant): Schedule
      reads this
    {
      ActiveSchedule(schedules, defaultSchedule, now)
    }

    /** Loads the service schedule when it is configured and its times
        parse, then the default, then resolves the initial schedule. */
    constructor (service: Option<ServiceConfig>, defaults: DefaultConfig, now: Instant)
      ensures service.Some? && ServiceSchedule(service.value).Some? ==> schedules == [ServiceSchedule(service.value).value]
      ensures service.None? || ServiceSchedule(service.value).None? ==> schedules == []
      ensures defaultSchedule == DefaultSchedule(defaults)
      ensures current == Some(ActiveAt(now))
    {
      var loaded: seq<Schedule> := [];
      if service.Some? {
        var s := ServiceSchedule(service.value);
        if s.Some? {
          loaded := loaded + [s.value];
        }
      }
      assert service.Some? && ServiceSchedule(service.value).Some? ==> loaded == [ServiceSchedule(service.value).value];
      assert service.None? || ServiceSchedule(service.value).None? ==> loaded == [];
      var fallback := DefaultSchedule(defaults);
      var initial := ActiveSchedule(loaded, fallback, now);
      schedules := loaded;
      defaultSchedule := fallback;
      current := Some(initial);
    }

    /** Re-resolves the schedule at `now`; reports whether it differs from
        the one last stored, and stores it. */
    method CheckScheduleChange(now: Instant) returns (changed: bool)
      modifies this
      ensures changed <==> old(current) != Some(old(ActiveAt(now)))
      ensures current == Some(old(ActiveAt(now)))
      ensures schedules == old(schedules) && defaultSchedule == old(defaultSchedule)
    {
      var resolved := ActiveSchedule(schedules, defaultSchedule, now);
      if Some(resolved) != current {
        current := Some(resolved);
        changed := true;
      } else {
        changed := false;
      }
    }

    /** Checking twice at the same instant: the second check sees no change. */
    method CheckTwice(now: Instant) returns (first: bool, second: bool)
      modifies this
      ensures first <==> old(current) != Some(old(ActiveAt(now)))
      ensures !second
    {
      first := CheckScheduleChange(now);
      second := CheckScheduleChange(now);
    }
  }
}
