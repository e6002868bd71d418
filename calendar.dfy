/** The calendar page's state and the operations that change it: loading a
    year's months and the user's events, opening and closing the edit dialog,
    writing a title and type over a range of days, and deleting one day's user
    event. Network calls are outcomes supplied by the caller: each call either
    succeeds, with the `id` field of its response, or fails. */
module Calendar {
  import opened Wrappers
  import opened Dates
  import opened Display

  /** A write request `saveEvent` sends through the API client. */
  datatype WriteCall =
    | CreateEvent(date: string, title: string, etype: string)
    | UpdateEvent(id: Option<int>, date: string, title: string, etype: string)

  /** The delete request `deleteEvent` sends, with the stored `id` (possibly none). */
  datatype DeleteCall = DeleteCall(id: Option<int>)

  /** How a request ends: with a response whose `id` field may be absent, or with
      a network or HTTP failure. */
  datatype Response = Succeeded(id: Option<int>) | NetworkFailure

  /** An element of the array the events endpoint returns, as the page reads it. */
  datatype EventRow = EventRow(date: string, title: string, eventType: string)

  /** How `saveEvent` ends: one of the two input alerts, every write succeeded
      (the dialog closes), or some write failed (an alert, the dialog stays). */
  datatype SaveOutcome = MissingDate | StartAfterEnd | Saved | SaveFailed

  // ------------------------------------------------ specification functions

  /** The call `saveEvent` issues for the day with ISO key `key`: an update of the
      user event already there (with its stored `id`, possibly none), otherwise a
      create. */
  function PlannedCall(key: string, users: map<string, UserEvent>, title: string, etype: string): (c: WriteCall)
    ensures c.date == key && c.title == title && c.etype == etype
    ensures c.UpdateEvent? <==> key in users
    ensures c.UpdateEvent? ==> c.id == users[key].id
  {
    if key in users then UpdateEvent(users[key].id, key, title, etype) else CreateEvent(key, title, etype)
  }

  /** The ISO keys of a run of days. */
  function DayKeys(days: seq<Date>): (keys: seq<string>)
    requires forall i :: 0 <= i < |days| ==> Valid(days[i])
    ensures |keys| == |days|
    ensures forall i :: 0 <= i < |days| ==> keys[i] == IsoKey(days[i])
  {
    seq(|days|, i requires 0 <= i < |days| => IsoKey(days[i]))
  }

  /** The calls for a run of day keys, one per key, in order. */
  function PlanCalls(keys: seq<string>, users: map<string, UserEvent>, title: string, etype: string): (calls: seq<WriteCall>)
    ensures |calls| == |keys|
    ensures forall i :: 0 <= i < |keys| ==> calls[i] == PlannedCall(keys[i], users, title, etype)
  {
    if keys == [] then []
    else PlanCalls(keys[..|keys| - 1], users, title, etype) + [PlannedCall(keys[|keys| - 1], users, title, etype)]
  }

  /** What a successful write leaves at its date: the submitted title and type, the
      type's colour, and the response's `id` on the create path only. */
  function Written(c: WriteCall, r: Response): (u: UserEvent)
    requires r.Succeeded?
    ensures u.title == c.title && u.etype == c.etype && u.color == ColorOf(c.etype)
    ensures u.id == if c.CreateEvent? then r.id else None
  {
    UserEvent(if c.CreateEvent? then r.id else None, c.title, c.etype, ColorOf(c.etype))
  }

  /** `userEvents` after the success callbacks of `calls` have run, the i-th call
      having ended with `results[i]`. */
  function Settle(users: map<string, UserEvent>, calls: seq<WriteCall>, results: seq<Response>): map<string, UserEvent>
    requires |calls| == |results|
  {
    if calls == [] then users
    else
      var n := |calls| - 1;
      var prior := Settle(users, calls[..n], results[..n]);
      if results[n].Succeeded? then prior[calls[n].date := Written(calls[n], results[n])] else prior
  }

  predicate DistinctDates(calls: seq<WriteCall>) {
    forall i, j :: 0 <= i < j < |calls| ==> calls[i].date != calls[j].date
  }

  /** With one call per date, the order in which the callbacks run does not matter:
      a succeeded call's date holds what it wrote, and every other key keeps its
      previous value or stays absent. */
  lemma {:induction false} SettleEffect(users: map<string, UserEvent>, calls: seq<WriteCall>, results: seq<Response>, key: string)
    requires |calls| == |results|
    requires DistinctDates(calls)
    ensures forall i :: 0 <= i < |calls| && results[i].Succeeded? && calls[i].date == key ==>
      key in Settle(users, calls, results) && Settle(users, calls, results)[key] == Written(calls[i], results[i])
    ensures (forall i :: 0 <= i < |calls| && results[i].Succeeded? ==> calls[i].date != key) ==>
      (key in Settle(users, calls, results) <==> key in users) &&
      (key in users ==> Settle(users, calls, results)[key] == users[key])
  {
    if calls != [] {
      var n := |calls| - 1;
      SettleEffect(users, calls[..n], results[..n], key);
    }
  }

  /** The user events an array of rows loads to: one per date, the last row with a
      date winning, none of them with an `id`. */
  function LoadedEvents(rows: seq<EventRow>): (m: map<string, UserEvent>)
    ensures forall k :: k in m ==> m[k].id.None?
    ensures forall k :: k in m <==> exists i :: 0 <= i < |rows| && rows[i].date == k
  {
    if rows == [] then map[]
    else
      var n := |rows| - 1;
      var r := rows[n];
      LoadedEvents(rows[..n])[r.date := UserEvent(None, r.title, r.eventType, ColorOf(r.eventType))]
  }

  /** A date's event comes from the last row carrying that date. */
  lemma {:induction false} LoadedEventsLastWins(rows: seq<EventRow>, i: int)
    requires 0 <= i < |rows|
    requires forall j :: i < j < |rows| ==> rows[j].date != rows[i].date
    ensures LoadedEvents(rows)[rows[i].date] ==
      UserEvent(None, rows[i].title, rows[i].eventType, ColorOf(rows[i].eventType))
  {
    var n := |rows| - 1;
    if i < n {
      LoadedEventsLastWins(rows[..n], i);
    }
  }

  /** A month whose fetch failed is stored with no events. */
  function MonthOrEmpty(response: Option<MonthData>): (d: MonthData)
    ensures response.None? ==> d.events == map[]
    ensures response.Some? ==> d == response.value
  {
    if response.Some? then response.value else MonthData(map[])
  }

  /** The styling of day `day` of `month` of `year`: the preset event of that month
      under the grid's key and the user event under the same key. */
  function CellAt(year: nat, data: map<int, MonthData>, users: map<string, UserEvent>, month: int, day: nat): (r: CellStyle)
    requires 1 <= month <= 12
  {
    var key := GridKey(year, month, day);
    var monthData := MonthOrEmpty(Lookup(data, month));
    DayCell(Lookup(monthData.events, key), Lookup(users, key))
  }

  /** The loop of `saveEvent`: walks from `start` to `end` one day at a time and
      issues one call per day, each decided on `users` as it was before any
      callback ran. */
  method IssueCalls(start: Date, end: Date, users: map<string, UserEvent>, title: string, etype: string)
    returns (calls: seq<WriteCall>)
    requires Valid(start) && Valid(end)
    ensures calls == PlanCalls(DayKeys(RangeDays(start, end)), users, title, etype)
  {
    ghost var days := RangeDays(start, end);
    ghost var keys := DayKeys(days);
    calls := [];
    var current := start;
    while Ordinal(current) <= Ordinal(end)
      invariant Valid(current) && Ordinal(current) == Ordinal(start) + |calls|
      invariant |calls| <= |keys|
      invariant calls == PlanCalls(keys[..|calls|], users, title, etype)
      decreases Ordinal(end) - Ordinal(current)
    {
      OrdinalOrder(current, days[|calls|]);
      var key := IsoKey(current);
      assert key == keys[|calls|];
      PlanCallsStep(keys, |calls|, users, title, etype);
      calls := calls + [PlannedCall(key, users, title, etype)];
      current := NextDay(current);
    }
    assert keys[..|calls|] == keys;
  }

  lemma PlanCallsStep(keys: seq<string>, k: int, users: map<string, UserEvent>, title: string, etype: string)
    requires 0 <= k < |keys|
    ensures PlanCalls(keys[..k + 1], users, title, etype) ==
      PlanCalls(keys[..k], users, title, etype) + [PlannedCall(keys[k], users, title, etype)]
  {
    assert keys[..k + 1][..k] == keys[..k];
  }

  /** The days of a range have distinct ISO keys, so a save writes each date once. */
  lemma DayKeysDistinct(start: Date, end: Date)
    requires Valid(start) && Valid(end)
    ensures forall i, j :: 0 <= i < j < |RangeDays(start, end)| ==>
      DayKeys(RangeDays(start, end))[i] != DayKeys(RangeDays(start, end))[j]
  {
    var days := RangeDays(start, end);
    var keys := DayKeys(days);
    forall i, j | 0 <= i < j < |days| ensures keys[i] != keys[j] {
      RangeDaysDistinct(start, end, i, j);
      if IsoKey(days[i]) == IsoKey(days[j]) {
        IsoKeyInjective(days[i], days[j]);
      }
    }
  }

  /** A save over distinct keys whose i-th call succeeded: that key holds the
      submitted title and type with the type's colour, and the response's `id` only
      when it was created. */
  lemma WrittenKey(users: map<string, UserEvent>, keys: seq<string>, title: string, etype: string,
                   results: seq<Response>, i: int)
    requires |results| == |keys| && 0 <= i < |keys| && results[i].Succeeded?
    requires forall j, k :: 0 <= j < k < |keys| ==> keys[j] != keys[k]
    ensures
      var after := Settle(users, PlanCalls(keys, users, title, etype), results);
      && keys[i] in after
      && after[keys[i]].title == title && after[keys[i]].etype == etype && after[keys[i]].color == ColorOf(etype)
      && after[keys[i]].id == (if keys[i] in users then None else results[i].id)
  {
    var calls := PlanCalls(keys, users, title, etype);
    assert DistinctDates(calls);
    SettleEffect(users, calls, results, keys[i]);
    assert calls[i] == PlannedCall(keys[i], users, title, etype);
  }

  /** A save over distinct keys leaves a key with no call, or whose calls failed, as
      it was, including having nothing. */
  lemma KeptKey(users: map<string, UserEvent>, keys: seq<string>, title: string, etype: string,
                results: seq<Response>, key: string)
    requires |results| == |keys|
    requires forall j, k :: 0 <= j < k < |keys| ==> keys[j] != keys[k]
    requires forall j :: 0 <= j < |keys| && keys[j] == key ==> results[j].NetworkFailure?
    ensures
      var after := Settle(users, PlanCalls(keys, users, title, etype), results);
      && (key in after <==> key in users)
      && (key in users ==> after[key] == users[key])
  {
    var calls := PlanCalls(keys, users, title, etype);
    assert DistinctDates(calls);
    assert forall j :: 0 <= j < |calls| && results[j].Succeeded? ==> calls[j].date != key;
    SettleEffect(users, calls, results, key);
  }

  /** What a save over `[start, end]` leaves for day `d`, `results[i]` being how the
      call for the i-th day ended: a day of the range whose call succeeded holds the
      submitted title and type with the type's colour, and the response's `id` only
      when it was created; a day outside the range, or one whose call failed, keeps
      what it had, including having nothing. */
  lemma SaveEffect(users: map<string, UserEvent>, start: Date, end: Date, title: string, etype: string,
                   results: seq<Response>, d: Date)
    requires Valid(start) && Valid(end) && Valid(d)
    requires |results| == |RangeDays(start, end)|
    ensures
      var after := Settle(users, PlanCalls(DayKeys(RangeDays(start, end)), users, title, etype), results);
      var key := IsoKey(d);
      var inRange := Ordinal(start) <= Ordinal(d) <= Ordinal(end);
      && (inRange && results[Ordinal(d) - Ordinal(start)].Succeeded? ==>
            && key in after
            && after[key].title == title && after[key].etype == etype && after[key].color == ColorOf(etype)
            && after[key].id == (if key in users then None else results[Ordinal(d) - Ordinal(start)].id))
      && (!inRange || results[Ordinal(d) - Ordinal(start)].NetworkFailure? ==>
            && (key in after <==> key in users)
            && (key in users ==> after[key] == users[key]))
  {
    if Ordinal(start) <= Ordinal(d) <= Ordinal(end) && results[Ordinal(d) - Ordinal(start)].Succeeded? {
      SavedDay(users, start, end, title, etype, results, d);
    } else {
      KeptDay(users, start, end, title, etype, results, d);
    }
  }

  /** A day of the range whose call succeeded holds what the save wrote. */
  lemma SavedDay(users: map<string, UserEvent>, start: Date, end: Date, title: string, etype: string,
                 results: seq<Response>, d: Date)
    requires Valid(start) && Valid(end) && Valid(d)
    requires |results| == |RangeDays(start, end)|
    requires Ordinal(start) <= Ordinal(d) <= Ordinal(end) && results[Ordinal(d) - Ordinal(start)].Succeeded?
    ensures
      var after := Settle(users, PlanCalls(DayKeys(RangeDays(start, end)), users, title, etype), results);
      var key := IsoKey(d);
      && key in after
      && after[key].title == title && after[key].etype == etype && after[key].color == ColorOf(etype)
      && after[key].id == (if key in users then None else results[Ordinal(d) - Ordinal(start)].id)
  {
    var keys := DayKeys(RangeDays(start, end));
    DayKeysDistinct(start, end);
    KeyOfDay(start, end, d);
    WrittenKey(users, keys, title, etype, results, Ordinal(d) - Ordinal(start));
  }

  /** A day outside the range, or whose call failed, keeps what it had. */
  lemma KeptDay(users: map<string, UserEvent>, start: Date, end: Date, title: string, etype: string,
                results: seq<Response>, d: Date)
    requires Valid(start) && Valid(end) && Valid(d)
    requires |results| == |RangeDays(start, end)|
    requires Ordinal(start) <= Ordinal(d) <= Ordinal(end) ==> results[Ordinal(d) - Ordinal(start)].NetworkFailure?
    ensures
      var after := Settle(users, PlanCalls(DayKeys(RangeDays(start, end)), users, title, etype), results);
      var key := IsoKey(d);
      && (key in after <==> key in users)
      && (key in users ==> after[key] == users[key])
  {
    var keys := DayKeys(RangeDays(start, end));
    DayKeysDistinct(start, end);
    forall j | 0 <= j < |keys| && keys[j] == IsoKey(d)
      ensures results[j].NetworkFailure?
    {
      DayOfKey(start, end, d, j);
    }
    KeptKey(users, keys, title, etype, results, IsoKey(d));
  }

  /** A day of the range has its key at its offset from the start. */
  lemma KeyOfDay(start: Date, end: Date, d: Date)
    requires Valid(start) && Valid(end) && Valid(d)
    requires Ordinal(start) <= Ordinal(d) <= Ordinal(end)
    ensures DayKeys(RangeDays(start, end))[Ordinal(d) - Ordinal(start)] == IsoKey(d)
  {
    var days := RangeDays(start, end);
    OrdinalOrder(days[Ordinal(d) - Ordinal(start)], d);
  }

  /** A key of the range names the day at that offset from the start. */
  lemma DayOfKey(start: Date, end: Date, d: Date, j: int)
    requires Valid(start) && Valid(end) && Valid(d)
    requires 0 <= j < |RangeDays(start, end)| && DayKeys(RangeDays(start, end))[j] == IsoKey(d)
    ensures Ordinal(start) <= Ordinal(d) <= Ordinal(end) && j == Ordinal(d) - Ordinal(start)
  {
    IsoKeyInjective(RangeDays(start, end)[j], d);
  }

  /** A day holding a user event of a type with a colour is painted in that colour,
      whatever preset shares the day (from year 1000 on, where the grid's key is the
      ISO key the event was saved under). */
  lemma UserEventPaintsCell(data: map<int, MonthData>, users: map<string, UserEvent>, d: Date)
    requires Valid(d) && d.year >= 1000
    requires IsoKey(d) in users && ColorOf(users[IsoKey(d)].etype).Some?
    ensures CellAt(d.year, data, users, d.month, d.day).background == ColorOf(users[IsoKey(d)].etype)
  {
    GridKeyIsIsoKey(d);
  }

  // --------------------------------------------------------- page state

  /** The module-level state of the page. */
  class Page {
    var currentYear: nat
    var selectedDate: Option<string>
    var yearCalendarData: map<int, MonthData>
    var userEvents: map<string, UserEvent>

    /** The state at load time, `year` being the clock's current year. */
    constructor (year: nat)
      ensures currentYear == year && selectedDate == None
      ensures yearCalendarData == map[] && userEvents == map[]
    {
      currentYear := year;
      selectedDate := None;
      yearCalendarData := map[];
      userEvents := map[];
    }

    /** The styling of day `day` of `month` in the rendered year. */
    function Cell(month: int, day: nat): (r: CellStyle)
      reads this
      requires 1 <= month <= 12
    {
      CellAt(currentYear, yearCalendarData, userEvents, month, day)
    }

    /** `createMonthCalendar`: the blank cells before day 1 and one cell per day. */
    function MonthGrid(month: int): (grid: (nat, seq<CellStyle>))
      reads this
      requires 1 <= currentYear && 1 <= month <= 12
      ensures grid.0 < 7 && grid.0 == Weekday(Date(currentYear, month, 1))
      ensures |grid.1| == DaysInMonth(currentYear, month)
      ensures forall d :: 1 <= d <= DaysInMonth(currentYear, month) ==> grid.1[d - 1] == Cell(month, d)
    {
      var year, data, users := currentYear, yearCalendarData, userEvents;
      (FirstWeekday(year, month), seq(DaysInMonth(year, month), i requires 0 <= i => CellAt(year, data, users, month, i + 1)))
    }

    /** `loadYearCalendarData`: month `m` gets the `(m-1)`-th response, or no events
      when that fetch failed; other keys are left alone. */
    method LoadYearCalendarData(responses: seq<Option<MonthData>>)
      requires |responses| == 12
      modifies this
      ensures forall m :: 1 <= m <= 12 ==> m in yearCalendarData && yearCalendarData[m] == MonthOrEmpty(responses[m - 1])
      ensures forall m :: !(1 <= m <= 12) ==>
        (m in yearCalendarData <==> m in old(yearCalendarData)) &&
        (m in yearCalendarData ==> yearCalendarData[m] == old(yearCalendarData)[m])
      ensures currentYear == old(currentYear) && selectedDate == old(selectedDate) && userEvents == old(userEvents)
    {
      for month := 1 to 13
        invariant forall m :: 1 <= m < month ==> m in yearCalendarData && yearCalendarData[m] == MonthOrEmpty(responses[m - 1])
        invariant forall m :: !(1 <= m < month) ==>
          (m in yearCalendarData <==> m in old(yearCalendarData)) &&
          (m in yearCalendarData ==> yearCalendarData[m] == old(yearCalendarData)[m])
        invariant currentYear == old(currentYear) && selectedDate == old(selectedDate) && userEvents == old(userEvents)
      {
        yearCalendarData := yearCalendarData[month := MonthOrEmpty(responses[month - 1])];
      }
    }

    /** The year selector's change handler: switch year, then reload the months. */
    method ChangeYear(year: nat, responses: seq<Option<MonthData>>)
      requires |responses| == 12
      modifies this
      ensures currentYear == year
      ensures forall m :: 1 <= m <= 12 ==> m in yearCalendarData && yearCalendarData[m] == MonthOrEmpty(responses[m - 1])
      ensures forall m :: !(1 <= m <= 12) ==>
        (m in yearCalendarData <==> m in old(yearCalendarData)) &&
        (m in yearCalendarData ==> yearCalendarData[m] == old(yearCalendarData)[m])
      ensures selectedDate == old(selectedDate) && userEvents == old(userEvents)
    {
      currentYear := year;
      LoadYearCalendarData(responses);
    }

    /** `loadUserEvents`: the map is rebuilt from the rows, or emptied when the fetch fails. */
    method LoadUserEvents(response: Option<seq<EventRow>>)
      modifies this
      ensures userEvents == if response.Some? then LoadedEvents(response.value) else map[]
      ensures currentYear == old(currentYear) && selectedDate == old(selectedDate)
      ensures yearCalendarData == old(yearCalendarData)
    {
      userEvents := map[];
      if response.Some? {
        var rows := response.value;
        for i := 0 to |rows|
          invariant userEvents == LoadedEvents(rows[..i])
          invariant currentYear == old(currentYear) && selectedDate == old(selectedDate)
          invariant yearCalendarData == old(yearCalendarData)
        {
          assert rows[..i + 1][..i] == rows[..i];
          var r := rows[i];
          userEvents := userEvents[r.date := UserEvent(None, r.title, r.eventType, ColorOf(r.eventType))];
        }
        assert rows[..|rows|] == rows;
      }
    }

    /** `updateEventsListForMonth`: nothing while the month has no data, else the
      month's list over `currentYear`. */
    method UpdateEventsListForMonth(month: int) returns (list: Option<seq<ListEntry>>)
      ensures list.None? <==> month !in yearCalendarData
      ensures list.Some? ==> IsMonthList(list.value, yearCalendarData[month].events, userEvents, currentYear, month)
    {
      if month !in yearCalendarData {
        return None;
      }
      var entries := MonthEventList(yearCalendarData[month].events, userEvents, currentYear, month);
      list := Some(entries);
    }

    /** `openEventModal`: selects `key` and returns the pre-filled form. */
    method OpenEventModal(key: string) returns (form: ModalForm)
      modifies this
      ensures selectedDate == Some(key)
      ensures form == Prefill(key, yearCalendarData, userEvents)
      ensures currentYear == old(currentYear) && yearCalendarData == old(yearCalendarData) && userEvents == old(userEvents)
    {
      selectedDate := Some(key);
      form := Prefill(key, yearCalendarData, userEvents);
    }

    /** `closeEventModal`: nothing is selected any more. */
    method CloseEventModal()
      modifies this
      ensures selectedDate == None
      ensures currentYear == old(currentYear) && yearCalendarData == old(yearCalendarData) && userEvents == old(userEvents)
    {
      selectedDate := None;
    }

    /** The callbacks of `saveEvent`'s calls: each succeeded call writes its day,
      in call order. Reports whether every call succeeded. */
    method SettleWrites(calls: seq<WriteCall>, respond: int -> Response) returns (allOk: bool)
      modifies this
      ensures userEvents == Settle(old(userEvents), calls, seq(|calls|, respond))
      ensures allOk <==> forall i :: 0 <= i < |calls| ==> respond(i).Succeeded?
      ensures currentYear == old(currentYear) && yearCalendarData == old(yearCalendarData)
      ensures selectedDate == old(selectedDate)
    {
      var results := seq(|calls|, respond);
      allOk := true;
      for i := 0 to |calls|
        invariant userEvents == Settle(old(userEvents), calls[..i], results[..i])
        invariant allOk <==> forall j :: 0 <= j < i ==> results[j].Succeeded?
        invariant currentYear == old(currentYear) && yearCalendarData == old(yearCalendarData)
        invariant selectedDate == old(selectedDate)
      {
        assert calls[..i + 1][..i] == calls[..i] && results[..i + 1][..i] == results[..i];
        if results[i].Succeeded? {
          userEvents := userEvents[calls[i].date := Written(calls[i], results[i])];
        } else {
          allOk := false;
        }
      }
      assert calls[..|calls|] == calls && results[..|calls|] == results;
      assert forall i :: 0 <= i < |calls| ==> results[i] == respond(i);
    }

    /** `saveEvent`: rejects a missing date or a start after the end without calling
      anything; otherwise issues one call per day from start to end inclusive and
      applies the success callbacks, closing the dialog only when every call succeeded.
      `respond(i)` is how the i-th call ends. */
    method SaveEvent(title: string, etype: string, startDate: Option<Date>, endDate: Option<Date>, respond: int -> Response)
      returns (outcome: SaveOutcome, calls: seq<WriteCall>)
      requires startDate.Some? ==> Valid(startDate.value)
      requires endDate.Some? ==> Valid(endDate.value)
      modifies this
      ensures currentYear == old(currentYear) && yearCalendarData == old(yearCalendarData)
      ensures startDate.None? || endDate.None? ==>
        outcome == MissingDate && calls == [] && userEvents == old(userEvents) && selectedDate == old(selectedDate)
      ensures startDate.Some? && endDate.Some? && Ordinal(startDate.value) > Ordinal(endDate.value) ==>
        outcome == StartAfterEnd && calls == [] && userEvents == old(userEvents) && selectedDate == old(selectedDate)
      ensures startDate.Some? && endDate.Some? && Ordinal(startDate.value) <= Ordinal(endDate.value) ==>
        && calls == PlanCalls(DayKeys(RangeDays(startDate.value, endDate.value)), old(userEvents), title, etype)
        && userEvents == Settle(old(userEvents), calls, seq(|calls|, respond))
        && (outcome == Saved || outcome == SaveFailed)
        && (outcome == Saved <==> forall i :: 0 <= i < |calls| ==> respond(i).Succeeded?)
        && selectedDate == if outcome == Saved then None else old(selectedDate)
    {
      if startDate.None? || endDate.None? {
        return MissingDate, [];
      }
      var start, end := startDate.value, endDate.value;
      if Ordinal(start) > Ordinal(end) {
        return StartAfterEnd, [];
      }

      calls := IssueCalls(start, end, userEvents, title, etype);
      var allOk := SettleWrites(calls, respond);
      if allOk {
        CloseEventModal();
        outcome := Saved;
      } else {
        outcome := SaveFailed;
      }
    }

    /** `deleteEvent`: only with a selected date that has a user event; the delete
      call carries that event's stored `id`, and on success exactly that key is
      removed and the dialog closes. */
    method DeleteEvent(response: Response) returns (call: Option<DeleteCall>)
      modifies this
      ensures currentYear == old(currentYear) && yearCalendarData == old(yearCalendarData)
      ensures call.Some? <==> old(selectedDate).Some? && old(selectedDate).value in old(userEvents)
      ensures call.None? ==> userEvents == old(userEvents) && selectedDate == old(selectedDate)
      ensures call.Some? ==> call.value == DeleteCall(old(userEvents)[old(selectedDate).value].id)
      ensures call.Some? && response.Succeeded? ==>
        userEvents == old(userEvents) - {old(selectedDate).value} && selectedDate == None
      ensures call.Some? && response.NetworkFailure? ==>
        userEvents == old(userEvents) && selectedDate == old(selectedDate)
    {
      if selectedDate.None? || selectedDate.value !in userEvents {
        return None;
      }
      var key := selectedDate.value;
      call := Some(DeleteCall(userEvents[key].id));
      if response.Succeeded? {
        userEvents := userEvents - {key};
        CloseEventModal();
      }
    }
  }
}
