/**
 The pure parts of the calendar page: the slot rows, the row labels, the records shown
 in each cell of the grid, week navigation, and the request an edit sends.
 Calendar dates are abstract day numbers, day 0 being 1970-01-01.
 */
module CalendarPage {
  import opened Wrappers
  import opened Timeline
  import opened TimeText
  import opened CalendarUtils

  /** One feeding as the weekly endpoint delivers it: `time` is "HH:mm", `fullTime` "YYYY-MM-DD HH:mm:ss". */
  datatype FeedingRecord = FeedingRecord(id: int, time: string, fullTime: string)

  /** One column of the grid. */
  datatype DayRecord = DayRecord(date: string, count: int, records: seq<FeedingRecord>)

  /** The body of the PUT request an edit sends to `/feeding/{id}`. */
  datatype EditRequest = EditRequest(id: int, newFeedingTime: string)

  // ----- Slot rows -----

  /** `slots`: the grid's rows, one per hour of the 04:00-based day. */
  function Slots(): (slots: seq<int>)
    ensures |slots| == HoursPerDay
    ensures forall i, j :: 0 <= i < j < |slots| ==> slots[i] < slots[j]
    ensures forall i :: 0 <= i < |slots| ==> FirstSlot <= slots[i] <= LastSlot
    ensures forall s :: FirstSlot <= s <= LastSlot ==> s in slots
  {
    var slots := seq(24, i => i + FrontendDayStartHour);
    assert forall s :: FirstSlot <= s <= LastSlot ==> s in slots by {
      forall s | FirstSlot <= s <= LastSlot
        ensures s in slots
      {
        assert slots[s - FrontendDayStartHour] == s;
      }
    }
    slots
  }

  /** `hour.toString().padStart(2, "0")` for an hour of the day. */
  function PadHour(hour: int): (text: string)
    requires 0 <= hour < HoursPerDay
    ensures |text| == 2 && AllDigits(text)
    ensures DigitValue(text[0]) * 10 + DigitValue(text[1]) == hour
  {
    var digits := ToDecimal(hour);
    var padded := PadStart(digits, 2, '0');
    if hour < 10 then
      assert digits == [DigitChar(hour)];
      assert padded == ['0', DigitChar(hour)];
      padded
    else
      assert padded == digits;
      TwoDigitValue(digits);
      padded
  }

  /** The label of a row: its display hour padded to two digits, then ":00". */
  function RowLabel(slot: int): (text: string)
    requires FirstSlot <= slot <= LastSlot
    ensures WellFormedTime(text)
    ensures HourField(text) == GetDisplayHour(slot) && MinuteField(text) == 0
  {
    var hour := PadHour(GetDisplayHour(slot));
    var text := hour + ":00";
    assert text[0] == hour[0] && text[1] == hour[1];
    assert text[2] == ':' && text[3] == '0' && text[4] == '0';
    text
  }

  /** The label of a row names the row's own hour and lands back in that row. */
  lemma RowLabelRoundTrip(slot: int)
    requires FirstSlot <= slot <= LastSlot
    ensures HourField(RowLabel(slot)) == slot % HoursPerDay
    ensures GetFeedingSlot(RowLabel(slot)) == slot
  {
    var text := RowLabel(slot);
    SlotOfDisplayHour(slot, text);
  }

  /** Row labels read 04:00 .. 23:00 and then 00:00 .. 03:00. */
  lemma RowLabelsFollowDay(i: int)
    requires 0 <= i < |Slots()|
    ensures HourField(RowLabel(Slots()[i])) == (i + FrontendDayStartHour) % HoursPerDay
    ensures GetFeedingSlot(RowLabel(Slots()[i])) == Slots()[i]
  {
    assert Slots()[i] == i + FrontendDayStartHour;
    RowLabelRoundTrip(i + FrontendDayStartHour);
  }

  // ----- Cells -----

  predicate WellFormedRecords(records: seq<FeedingRecord>)
  {
    forall r :: r in records ==> WellFormedTime(r.time)
  }

  /** The record belongs in the cell of `slot`: its time is well formed and maps to that slot. */
  predicate InCell(r: FeedingRecord, slot: int)
  {
    WellFormedTime(r.time) && GetFeedingSlot(r.time) == slot
  }

  /** `records.filter(r => getFeedingSlot(r.time) === slot)`, keeping the records' order. */
  function InSlot(records: seq<FeedingRecord>, slot: int): (hits: seq<FeedingRecord>)
    requires WellFormedRecords(records)
    ensures WellFormedRecords(hits)
    ensures forall r :: r in hits <==> r in records && InCell(r, slot)
    ensures forall r :: multiset(hits)[r] == if InCell(r, slot) then multiset(records)[r] else 0
  {
    if records == [] then []
    else
      var n := |records| - 1;
      var prefix := records[..n];
      assert records == prefix + [records[n]];
      InSlot(prefix, slot) + (if InCell(records[n], slot) then [records[n]] else [])
  }

  /** Times never decrease along the sequence. */
  predicate SortedByTime(records: seq<FeedingRecord>)
  {
    forall i, j :: 0 <= i < j < |records| ==> LexLe(records[i].time, records[j].time)
  }

  /** Appending a record that sorts no earlier than every record keeps the sequence sorted. */
  lemma SortedSnoc(sorted: seq<FeedingRecord>, r: FeedingRecord)
    requires SortedByTime(sorted)
    requires forall q :: q in sorted ==> LexLe(q.time, r.time)
    ensures SortedByTime(sorted + [r])
  {
  }

  /** On well-formed times, code-point order is transitive. */
  lemma LexLeTransitive(a: string, b: string, c: string)
    requires WellFormedTime(a) && WellFormedTime(b) && WellFormedTime(c)
    requires LexLe(a, b) && LexLe(b, c)
    ensures LexLe(a, c)
  {
    LexLeIsChronological(a, b);
    LexLeIsChronological(b, c);
    LexLeIsChronological(a, c);
  }

  /** Every record of a sorted sequence sorts no later than a record its last one precedes. */
  lemma AllBefore(sorted: seq<FeedingRecord>, r: FeedingRecord)
    requires WellFormedRecords(sorted) && WellFormedTime(r.time)
    requires SortedByTime(sorted) && sorted != []
    requires LexLe(sorted[|sorted| - 1].time, r.time)
    ensures forall q :: q in sorted ==> LexLe(q.time, r.time)
  {
    var last := sorted[|sorted| - 1];
    forall q | q in sorted
      ensures LexLe(q.time, r.time)
    {
      var k :| 0 <= k < |sorted| && sorted[k] == q;
      if k < |sorted| - 1 {
        LexLeTransitive(q.time, last.time, r.time);
      }
    }
  }

  /** After inserting `r` into records that precede `last`, they all still precede `last` when `r` does. */
  lemma InsertedBefore(front: seq<FeedingRecord>, prefix: seq<FeedingRecord>, r: FeedingRecord, last: FeedingRecord)
    requires WellFormedTime(r.time) && WellFormedTime(last.time)
    requires multiset(front) == multiset(prefix) + multiset{r}
    requires forall q :: q in prefix ==> LexLe(q.time, last.time)
    requires !LexLe(last.time, r.time)
    ensures forall q :: q in front ==> LexLe(q.time, last.time)
  {
    LexLeIsChronological(last.time, r.time);
    LexLeIsChronological(r.time, last.time);
    forall q | q in front
      ensures LexLe(q.time, last.time)
    {
      assert q in multiset(front);
    }
  }

  /** Inserts `r` after every record whose time sorts no later than its own. */
  function InsertByTime(sorted: seq<FeedingRecord>, r: FeedingRecord): (result: seq<FeedingRecord>)
    requires WellFormedRecords(sorted) && WellFormedTime(r.time)
    requires SortedByTime(sorted)
    ensures WellFormedRecords(result)
    ensures SortedByTime(result)
    ensures multiset(result) == multiset(sorted) + multiset{r}
  {
    if sorted == [] then [r]
    else
      var n := |sorted| - 1;
      var last := sorted[n];
      if LexLe(last.time, r.time) then
        AllBefore(sorted, r);
        SortedSnoc(sorted, r);
        sorted + [r]
      else
        var prefix := sorted[..n];
        assert sorted == prefix + [last];
        assert forall q :: q in prefix ==> LexLe(q.time, last.time);
        var front := InsertByTime(prefix, r);
        InsertedBefore(front, prefix, r, last);
        SortedSnoc(front, last);
        front + [last]
  }

  /** `.sort((a, b) => a.time.localeCompare(b.time))`, as an insertion sort. */
  function SortByTime(records: seq<FeedingRecord>): (sorted: seq<FeedingRecord>)
    requires WellFormedRecords(records)
    ensures WellFormedRecords(sorted)
    ensures SortedByTime(sorted)
    ensures multiset(sorted) == multiset(records)
  {
    if records == [] then []
    else
      var n := |records| - 1;
      assert records == records[..n] + [records[n]];
      InsertByTime(SortByTime(records[..n]), records[n])
  }

  /** `hits`: the records of one day that the cell of `slot` shows, earliest time first. */
  function Hits(records: seq<FeedingRecord>, slot: int): (hits: seq<FeedingRecord>)
    requires WellFormedRecords(records)
    ensures WellFormedRecords(hits)
    ensures SortedByTime(hits)
    ensures forall i, j :: 0 <= i < j < |hits| ==> MinuteOfDay(hits[i].time) <= MinuteOfDay(hits[j].time)
    ensures forall r :: r in hits <==> r in records && InCell(r, slot)
    ensures forall r :: multiset(hits)[r] == if InCell(r, slot) then multiset(records)[r] else 0
  {
    var hits := SortByTime(InSlot(records, slot));
    assert forall r :: r in hits <==> r in multiset(hits);
    forall i, j | 0 <= i < j < |hits|
      ensures MinuteOfDay(hits[i].time) <= MinuteOfDay(hits[j].time)
    {
      LexLeIsChronological(hits[i].time, hits[j].time);
    }
    hits
  }

  /** Every record shown by the cells of `slots`, counted with multiplicity. */
  function Shown(records: seq<FeedingRecord>, slots: seq<int>): multiset<FeedingRecord>
    requires WellFormedRecords(records)
  {
    if slots == [] then multiset{} else multiset(Hits(records, slots[0])) + Shown(records, slots[1..])
  }

  /** A record whose slot is not among `slots` is shown by none of their cells. */
  lemma {:induction false} ShownUnlisted(records: seq<FeedingRecord>, slots: seq<int>, r: FeedingRecord)
    requires WellFormedRecords(records) && r in records
    requires GetFeedingSlot(r.time) !in slots
    ensures Shown(records, slots)[r] == 0
  {
    if slots != [] {
      ShownUnlisted(records, slots[1..], r);
    }
  }

  /** Over distinct rows, a record whose slot is listed is shown exactly as often as it occurs. */
  lemma {:induction false} ShownListed(records: seq<FeedingRecord>, slots: seq<int>, r: FeedingRecord)
    requires WellFormedRecords(records) && r in records
    requires forall i, j :: 0 <= i < j < |slots| ==> slots[i] != slots[j]
    requires GetFeedingSlot(r.time) in slots
    ensures Shown(records, slots)[r] == multiset(records)[r]
  {
    var s := GetFeedingSlot(r.time);
    if s == slots[0] {
      assert s !in slots[1..];
      ShownUnlisted(records, slots[1..], r);
    } else {
      ShownListed(records, slots[1..], r);
    }
  }

  /** Only records of the day are shown. */
  lemma {:induction false} ShownOnlyRecords(records: seq<FeedingRecord>, slots: seq<int>, r: FeedingRecord)
    requires WellFormedRecords(records) && r !in records
    ensures Shown(records, slots)[r] == 0
  {
    if slots != [] {
      ShownOnlyRecords(records, slots[1..], r);
      assert r !in Hits(records, slots[0]);
    }
  }

  /**
   Any rows that list every slot 4..27 once partition a day's records: over those rows,
   each record of the day is shown exactly as often as it occurs, and nothing else is shown.
   */
  lemma {:induction false} CellsPartition(records: seq<FeedingRecord>, slots: seq<int>)
    requires WellFormedRecords(records)
    requires forall i, j :: 0 <= i < j < |slots| ==> slots[i] != slots[j]
    requires forall s :: FirstSlot <= s <= LastSlot ==> s in slots
    ensures Shown(records, slots) == multiset(records)
  {
    forall r
      ensures Shown(records, slots)[r] == multiset(records)[r]
    {
      if r in records {
        ShownListed(records, slots, r);
      } else {
        ShownOnlyRecords(records, slots, r);
      }
    }
  }

  /** The page's own rows partition the records of every day column. */
  lemma CellsPartitionDay(day: DayRecord)
    requires WellFormedRecords(day.records)
    ensures Shown(day.records, Slots()) == multiset(day.records)
  {
    CellsPartition(day.records, Slots());
  }

  // ----- Week navigation -----

  /** `getDay()` of a day number: 0 is Sunday; 1970-01-01 was a Thursday. */
  function Weekday(day: int): (w: int)
    ensures 0 <= w < 7
  {
    (day + 4) % 7
  }

  /** Consecutive day numbers have consecutive weekdays, and day 0 is a Thursday. */
  lemma {:induction false} WeekdayAdvances(day: int)
    ensures Weekday(day + 1) == (Weekday(day) + 1) % 7
    ensures Weekday(0) == 4
  {
  }

  /** `getThisWeekStart`: the Sunday that begins the week containing `today`. */
  function ThisWeekStart(today: int): (sunday: int)
    ensures Weekday(sunday) == 0
    ensures 0 <= today - sunday <= 6
  {
    today - Weekday(today)
  }

  /** No other Sunday lies within the six days up to `today`. */
  lemma ThisWeekStartUnique(today: int, sunday: int)
    requires Weekday(sunday) == 0 && 0 <= today - sunday <= 6
    ensures sunday == ThisWeekStart(today)
  {
  }

  /** `goToPrevWeek`. */
  function PrevWeek(weekStart: int): (start: int)
    ensures Weekday(start) == Weekday(weekStart)
    ensures weekStart - start == 7
  {
    weekStart - 7
  }

  /** `goToNextWeek`. */
  function NextWeek(weekStart: int): (start: int)
    ensures Weekday(start) == Weekday(weekStart)
    ensures start - weekStart == 7
  {
    weekStart + 7
  }

  /** Going back a week and then forward a week, or the reverse, returns to the same week. */
  lemma PrevNextRoundTrip(weekStart: int)
    ensures NextWeek(PrevWeek(weekStart)) == weekStart
    ensures PrevWeek(NextWeek(weekStart)) == weekStart
  {
  }

  /** The next week of this week is the week that contains the day one week from today. */
  lemma NextWeekOfThisWeek(today: int)
    ensures NextWeek(ThisWeekStart(today)) == ThisWeekStart(today + 7)
    ensures PrevWeek(ThisWeekStart(today)) == ThisWeekStart(today - 7)
  {
  }

  // ----- Editing -----

  /** A "YYYY-MM-DD" date as the weekly endpoint labels days. */
  predicate WellFormedDate(date: string)
  {
    && |date| == 10
    && date[4] == '-' && date[7] == '-'
    && forall i :: 0 <= i < 10 && i != 4 && i != 7 ==> IsDigit(date[i])
  }

  /** A "YYYY-MM-DD HH:mm:ss" date-time whose time of day is well formed. */
  predicate WellFormedDateTime(s: string)
  {
    && |s| == 19
    && WellFormedDate(s[..10]) && s[10] == ' '
    && WellFormedTime(s[11..16]) && s[16] == ':' && IsDigit(s[17]) && IsDigit(s[18])
  }

  /**
   `handleEdit`: no request when the prompt is cancelled (`None`) or left empty;
   otherwise a PUT for the record's id with the new time on the column's date.
   */
  function EditRequestFor(record: FeedingRecord, date: string, input: Option<string>): (req: Option<EditRequest>)
    ensures req.None? <==> input.None? || input.value == ""
    ensures req.Some? ==> req.value.id == record.id
    ensures req.Some? ==> |req.value.newFeedingTime| == |date| + |input.value| + 4
    ensures req.Some? ==> req.value.newFeedingTime[..|date|] == date
    ensures req.Some? ==> req.value.newFeedingTime[|date|] == ' '
    ensures req.Some? ==> req.value.newFeedingTime[|date| + 1..|date| + 1 + |input.value|] == input.value
    ensures req.Some? ==> req.value.newFeedingTime[|date| + 1 + |input.value|..] == ":00"
  {
    if input.None? || input.value == "" then None
    else Some(EditRequest(record.id, date + " " + input.value + ":00"))
  }

  /**
   A well-formed "HH:mm" entered on a well-formed date yields a well-formed date-time
   that reads back as that date, that time, and zero seconds.
   */
  lemma EditRequestRoundTrip(record: FeedingRecord, date: string, input: string)
    requires WellFormedDate(date) && WellFormedTime(input)
    ensures EditRequestFor(record, date, Some(input)).Some?
    ensures var s := EditRequestFor(record, date, Some(input)).value.newFeedingTime;
              WellFormedDateTime(s) && s[..10] == date && s[11..16] == input && s[17..] == "00"
  {
  }
}
