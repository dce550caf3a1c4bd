/**
 The calendar page's slot mapping. The timeline shows one row per hour, starting at
 04:00; the hours 00..03 after midnight belong to the tail of the previous day and
 take slots 24..27.
 */
module CalendarUtils {
  import opened Timeline
  import opened TimeText

  /** Hour at which the calendar's day begins (the backend's day begins at 02:00). */
  const FrontendDayStartHour: int := 4
  const FirstSlot: int := FrontendDayStartHour
  const LastSlot: int := FrontendDayStartHour + HoursPerDay - 1

  /** `getFeedingSlot`: the slot of a well-formed "HH:mm" time. */
  function GetFeedingSlot(time: string): (slot: int)
    requires WellFormedTime(time)
    ensures FirstSlot <= slot <= LastSlot
    ensures slot - FrontendDayStartHour == (HourField(time) - FrontendDayStartHour) % HoursPerDay
    ensures GetDisplayHour(slot) == HourField(time)
  {
    var hour := HourField(time);
    if hour < 4 then hour + 24 else hour
  }

  /** `getDisplayHour`: the clock hour shown for a slot. */
  function GetDisplayHour(slot: int): (hour: int)
    ensures FirstSlot <= slot <= LastSlot ==> 0 <= hour < HoursPerDay && hour == slot % HoursPerDay
    ensures FirstSlot <= slot <= LastSlot ==>
              slot - FrontendDayStartHour == (hour - FrontendDayStartHour) % HoursPerDay
  {
    if slot >= 24 then slot - 24 else slot
  }

  /** Slot to hour and back: every slot 4..27 is the slot of the times at its display hour. */
  lemma SlotOfDisplayHour(slot: int, time: string)
    requires FirstSlot <= slot <= LastSlot
    requires WellFormedTime(time) && HourField(time) == GetDisplayHour(slot)
    ensures GetFeedingSlot(time) == slot
  {
  }

  /** Only the hour field matters: times that share their hour share their slot. */
  lemma SlotIgnoresMinutes(a: string, b: string)
    requires WellFormedTime(a) && WellFormedTime(b)
    requires a[..2] == b[..2]
    ensures GetFeedingSlot(a) == GetFeedingSlot(b)
  {
  }

  /** Slot order is the order of the hours counted from 04:00. */
  lemma SlotOrderFollowsDay(a: string, b: string)
    requires WellFormedTime(a) && WellFormedTime(b)
    ensures GetFeedingSlot(a) <= GetFeedingSlot(b) <==>
              (HourField(a) - FrontendDayStartHour) % HoursPerDay <= (HourField(b) - FrontendDayStartHour) % HoursPerDay
  {
  }

  /**
   For an instant `t` whose clock hour the time shows, the slot is 4 plus the whole hours
   elapsed since the 04:00 that began `t`'s calendar day.
   */
  lemma SlotCountsHoursSinceDayStart(t: int, dayStart: int, time: string)
    requires IsBoundary(dayStart, FrontendDayStartHour, t)
    requires WellFormedTime(time) && HourField(time) == HourOf(t)
    ensures GetFeedingSlot(time) == FrontendDayStartHour + (t - dayStart) / SecondsPerHour
  {
    BoundaryHour(dayStart, FrontendDayStartHour, t);
    var h := HourOf(t);
    var elapsed := t - dayStart;
    assert 0 <= elapsed < SecondsPerDay;
    if h >= FrontendDayStartHour {
      assert dayStart == StartOfDay(t) + FrontendDayStartHour * SecondsPerHour;
    } else {
      assert dayStart == StartOfDay(t) - SecondsPerDay + FrontendDayStartHour * SecondsPerHour;
    }
  }

  /** The examples in the source's comments. */
  lemma DocumentedExamples()
    ensures GetFeedingSlot("02:21") == 26
    ensures GetFeedingSlot("04:00") == 4
    ensures GetFeedingSlot("23:10") == 23
    ensures GetDisplayHour(26) == 2
  {
  }
}
