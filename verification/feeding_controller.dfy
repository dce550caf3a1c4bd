/**
 The backend's feeding controller: `store` appends one feeding and summarises the
 current day, `today` only summarises it. The backend's day starts at 02:00, not at
 midnight; the `feedings` table is a sequence of rows in insertion order.
 */
module FeedingController {
  import opened Timeline
  import opened Wrappers

  /** Hour at which the backend's feeding day begins. */
  const BackendDayStartHour: int := 2
  /** Amount written by every `store` call. */
  const DefaultAmount: nat := 10
  /** Daily limit reported to the caller; it is never enforced. */
  const DailyLimit: int := 6
  const StoredMessage: string := "Feeding recorded successfully"

  /** One row of the `feedings` table; instants are seconds on the local timeline. */
  datatype Feeding = Feeding(id: nat, feedingTime: int, amount: nat, createdAt: int, updatedAt: int)

  /** The `feedings` table, with the auto-increment counter that assigns the next id. */
  datatype Table = Table(rows: seq<Feeding>, nextId: nat)

  /** Ids are unique and were all handed out by the counter. */
  ghost predicate ValidTable(table: Table)
  {
    && (forall i :: 0 <= i < |table.rows| ==> table.rows[i].id < table.nextId)
    && (forall i, j :: 0 <= i < j < |table.rows| ==> table.rows[i].id != table.rows[j].id)
  }

  /** What `today` returns: how many rows are counted, and the latest counted feeding time. */
  datatype Summary = Summary(count: nat, latest: Option<int>)

  /** What `store` returns. */
  datatype StoreResponse = StoreResponse(message: string, count: nat, latest: Option<int>, limit: int)

  /**
   Start of the current feeding day: 02:00 of today's date, or 02:00 of yesterday's
   date while the clock still reads before 02:00.
   */
  function WindowStart(now: int): (start: int)
    ensures IsBoundary(start, BackendDayStartHour, now)
    ensures HourOf(start) == BackendDayStartHour
    ensures HourOf(now) >= BackendDayStartHour ==> StartOfDay(start) == StartOfDay(now)
    ensures HourOf(now) < BackendDayStartHour ==> StartOfDay(start) == StartOfDay(now) - SecondsPerDay
  {
    if HourOf(now) < BackendDayStartHour then
      (StartOfDay(now) - SecondsPerDay) + BackendDayStartHour * SecondsPerHour
    else
      StartOfDay(now) + BackendDayStartHour * SecondsPerHour
  }

  /** The window start is the one 02:00 instant whose following 24 hours contain `now`. */
  lemma WindowStartIsLastBoundary(now: int, start: int)
    requires IsBoundary(start, BackendDayStartHour, now)
    ensures start == WindowStart(now)
  {
  }

  /**
   On a calendar date numbered `day`, 01:00 still belongs to the feeding day that began at
   02:00 the date before, while 05:00 belongs to the one that began at 02:00 that date.
   */
  lemma WindowStartBeforeAndAfterTwo(day: int)
    ensures WindowStart(day * SecondsPerDay + 1 * SecondsPerHour) == (day - 1) * SecondsPerDay + 2 * SecondsPerHour
    ensures WindowStart(day * SecondsPerDay + 5 * SecondsPerHour) == day * SecondsPerDay + 2 * SecondsPerHour
  {
    var early := day * SecondsPerDay + 1 * SecondsPerHour;
    var late := day * SecondsPerDay + 5 * SecondsPerHour;
    WindowStartIsLastBoundary(early, (day - 1) * SecondsPerDay + 2 * SecondsPerHour);
    WindowStartIsLastBoundary(late, day * SecondsPerDay + 2 * SecondsPerHour);
  }

  /** Indices of the rows the query `feeding_time >= start` selects. */
  ghost function SelectedIndices(rows: seq<Feeding>, start: int): set<int>
  {
    set i | 0 <= i < |rows| && rows[i].feedingTime >= start
  }

  /** Number of rows with `feedingTime >= start`; there is no upper bound. */
  function CountSince(rows: seq<Feeding>, start: int): (n: nat)
    ensures n <= |rows|
  {
    if rows == [] then 0
    else CountSince(rows[..|rows| - 1], start) + (if rows[|rows| - 1].feedingTime >= start then 1 else 0)
  }

  /** `CountSince` is the size of the selected set of rows. */
  lemma {:induction false} CountSinceIsSelectionSize(rows: seq<Feeding>, start: int)
    ensures CountSince(rows, start) == |SelectedIndices(rows, start)|
  {
    if rows != [] {
      var n := |rows| - 1;
      CountSinceIsSelectionSize(rows[..n], start);
      var before := SelectedIndices(rows[..n], start);
      if rows[n].feedingTime >= start {
        assert SelectedIndices(rows, start) == before + {n};
      } else {
        assert SelectedIndices(rows, start) == before;
      }
    }
  }

  /**
   The largest `feedingTime` among rows with `feedingTime >= start`: the first row of
   the source's descending query, or `None` when the query is empty.
   */
  function LatestSince(rows: seq<Feeding>, start: int): (latest: Option<int>)
    ensures latest.None? <==> CountSince(rows, start) == 0
    ensures latest.Some? ==> latest.value >= start
    ensures latest.Some? ==> exists i :: 0 <= i < |rows| && rows[i].feedingTime == latest.value
    ensures forall i :: 0 <= i < |rows| && rows[i].feedingTime >= start ==>
              latest.Some? && rows[i].feedingTime <= latest.value
  {
    if rows == [] then None
    else
      var n := |rows| - 1;
      var t := rows[n].feedingTime;
      var rest := LatestSince(rows[..n], start);
      assert forall i :: 0 <= i < n ==> rows[..n][i] == rows[i];
      if t < start then rest
      else match rest
        case None => Some(t)
        case Some(u) => Some(if u < t then t else u)
  }

  /** The summary over rows from `start` on: the shared tail of `store` and `today`. */
  function Summarize(rows: seq<Feeding>, start: int): (s: Summary)
    ensures s.count == |SelectedIndices(rows, start)|
    ensures s.latest.None? <==> s.count == 0
    ensures s.latest.Some? ==> s.latest.value >= start
    ensures forall i :: 0 <= i < |rows| && rows[i].feedingTime >= start ==>
              s.latest.Some? && rows[i].feedingTime <= s.latest.value
    ensures s.latest.Some? ==> exists i :: 0 <= i < |rows| && rows[i].feedingTime == s.latest.value
  {
    CountSinceIsSelectionSize(rows, start);
    Summary(CountSince(rows, start), LatestSince(rows, start))
  }

  /** GET /api/feeding/today: the summary of the current feeding day. */
  function Today(table: Table, now: int): (s: Summary)
    ensures s.count == |SelectedIndices(table.rows, WindowStart(now))|
    ensures s.latest.None? <==> s.count == 0
    ensures s.latest.Some? ==> s.latest.value >= WindowStart(now)
    ensures forall i :: 0 <= i < |table.rows| && table.rows[i].feedingTime >= WindowStart(now) ==>
              s.latest.Some? && table.rows[i].feedingTime <= s.latest.value
    ensures s.latest.Some? ==>
              exists i :: 0 <= i < |table.rows| && table.rows[i].feedingTime == s.latest.value
  {
    Summarize(table.rows, WindowStart(now))
  }

  /** The row `store` writes at instant `now`. */
  function NewFeeding(id: nat, now: int): Feeding
  {
    Feeding(id, now, DefaultAmount, now, now)
  }

  /**
   POST /api/feeding: append one row at `now` with the default amount, whatever the
   day's count, then summarise the day exactly as `today` would.
   */
  function Store(table: Table, now: int): (result: (Table, StoreResponse))
    ensures |result.0.rows| == |table.rows| + 1
    ensures result.0.rows[..|table.rows|] == table.rows
    ensures result.0.rows[|table.rows|] == NewFeeding(table.nextId, now)
    ensures result.0.nextId == table.nextId + 1
    ensures ValidTable(table) ==> ValidTable(result.0)
    ensures result.1.count == Today(table, now).count + 1
    ensures result.1.count == Today(result.0, now).count
    ensures result.1.latest == Today(result.0, now).latest
    ensures result.1.latest == Some(match Today(table, now).latest
                                     case None => now
                                     case Some(u) => if u < now then now else u)
    ensures result.1.limit == DailyLimit
  {
    var table' := Table(table.rows + [NewFeeding(table.nextId, now)], table.nextId + 1);
    assert table'.rows[..|table.rows|] == table.rows;
    var summary := Summarize(table'.rows, WindowStart(now));
    (table', StoreResponse(StoredMessage, summary.count, summary.latest, DailyLimit))
  }

  /**
   Why the model reads the clock once: if the feeding is written one second before
   02:00 and the day start is computed a second later, the start is 02:00 of that same
   date, so the new row lies before it and is not counted; read at one instant, the
   row is counted.
   */
  lemma SplitClockMissesNewRow(day: int)
    ensures var write := day * SecondsPerDay + BackendDayStartHour * SecondsPerHour - 1;
            WindowStart(write) <= write < WindowStart(write + 1)
  {
    var write := day * SecondsPerDay + BackendDayStartHour * SecondsPerHour - 1;
    WindowStartIsLastBoundary(write + 1, day * SecondsPerDay + BackendDayStartHour * SecondsPerHour);
  }

  /**
   The missing upper bound: a row dated a full day or more after the window start is
   still counted as today's, and becomes the reported latest feeding if it is the newest.
   */
  lemma FutureRowsCountAsToday(table: Table, now: int, row: Feeding)
    requires row.feedingTime >= WindowStart(now) + SecondsPerDay
    ensures Today(Table(table.rows + [row], table.nextId), now).count == Today(table, now).count + 1
    ensures Today(Table(table.rows + [row], table.nextId), now).latest.Some?
    ensures row.feedingTime <= Today(Table(table.rows + [row], table.nextId), now).latest.value
  {
  }
}
