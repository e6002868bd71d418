/** The Flask back end: the `event` table as a sequence of rows, the validation of
    calendar requests, the half-open month window, grouping rows by ISO date, the
    POST defaults, the PUT partial update, deletion, and the one-time seeding of
    the preset holidays. Each handler is a method of `Backend`, whose fields are
    the table and the module's `_db_initialized` flag. */
module Server {
  import opened Wrappers
  import opened Text
  import opened Dates

  /** A row of the `event` table. */
  datatype Event = Event(id: int, title: string, date: Date, eventType: string, color: string, description: string)

  /** `Event.to_dict()`: the JSON object sent for a row; `etype` is its `type` key. */
  datatype EventDict = EventDict(id: int, title: string, date: string, etype: string, color: string, description: string)

  /** A day a `db.Date` column can hold: a real day in years 1 to 9999. */
  predicate StoredDate(d: Date) {
    Valid(d) && d.year <= 9999
  }

  predicate AllStored(rows: seq<Event>) {
    forall i :: 0 <= i < |rows| ==> StoredDate(rows[i].date)
  }

  /** The table's standing invariant: stored dates, positive and distinct ids. */
  predicate WellFormed(rows: seq<Event>) {
    AllStored(rows)
    && (forall i :: 0 <= i < |rows| ==> rows[i].id >= 1)
    && (forall i, j :: 0 <= i < j < |rows| ==> rows[i].id != rows[j].id)
  }

  // ------------------------------------------------------------- constants

  const MIN_YEAR := 2025
  const MAX_YEAR := 2035
  const DEFAULT_TYPE := "custom"
  const DEFAULT_COLOR := "#5B9BD5"

  /** The server's colour per event type. */
  const EVENT_COLORS: map<string, string> := map[
    "school" := "#5B9BD5",
    "public" := "#7030A0",
    "islamic" := "#00B050",
    "christian" := "#FF0000",
    "back_to_school" := "#FFFF00",
    "custom" := "#5B9BD5"]

  /** An entry of the preset table: its key's date, title, type and colour. */
  datatype Preset = Preset(date: Date, title: string, etype: string, color: string)

  /** The Saudi holidays of 2025 and 2026, in the preset table's insertion order. */
  const PRESET_EVENTS: seq<Preset> := [
    Preset(Date(2025, 2, 22), "Founding Day (建国日)", "public", "#7030A0"),
    Preset(Date(2025, 9, 23), "Saudi National Day (沙特国庆日)", "public", "#7030A0"),
    Preset(Date(2025, 3, 30), "Eid al-Fitr (开斋节)", "islamic", "#00B050"),
    Preset(Date(2025, 3, 31), "Eid al-Fitr (开斋节)", "islamic", "#00B050"),
    Preset(Date(2025, 6, 6), "Eid al-Adha (宰牲节)", "islamic", "#00B050"),
    Preset(Date(2025, 6, 7), "Eid al-Adha (宰牲节)", "islamic", "#00B050"),
    Preset(Date(2025, 6, 8), "Eid al-Adha (宰牲节)", "islamic", "#00B050"),
    Preset(Date(2026, 2, 22), "Founding Day (建国日)", "public", "#7030A0"),
    Preset(Date(2026, 9, 23), "Saudi National Day (沙特国庆日)", "public", "#7030A0"),
    Preset(Date(2026, 3, 20), "Eid al-Fitr (开斋节)", "islamic", "#00B050"),
    Preset(Date(2026, 3, 21), "Eid al-Fitr (开斋节)", "islamic", "#00B050"),
    Preset(Date(2026, 5, 27), "Eid al-Adha (宰牲节)", "islamic", "#00B050"),
    Preset(Date(2026, 5, 28), "Eid al-Adha (宰牲节)", "islamic", "#00B050"),
    Preset(Date(2026, 5, 29), "Eid al-Adha (宰牲节)", "islamic", "#00B050")]

  /** Every preset has a storable date, a type the colour table knows and that
      type's colour, and no two presets share a date (they are dictionary keys). */
  lemma PresetTableFacts()
    ensures forall i :: 0 <= i < |PRESET_EVENTS| ==> StoredDate(PRESET_EVENTS[i].date)
    ensures forall i :: 0 <= i < |PRESET_EVENTS| ==>
      PRESET_EVENTS[i].etype in EVENT_COLORS && EVENT_COLORS[PRESET_EVENTS[i].etype] == PRESET_EVENTS[i].color
    ensures forall i, j :: 0 <= i < j < |PRESET_EVENTS| ==> PRESET_EVENTS[i].date != PRESET_EVENTS[j].date
  {
  }

  // ------------------------------------------------------- years and months

  /** `get_available_years`: `list(range(2025, 2036))`. */
  function AvailableYears(): (years: seq<int>)
    ensures |years| == 11
    ensures forall i :: 0 <= i < |years| ==> years[i] == MIN_YEAR + i
  {
    seq(MAX_YEAR - MIN_YEAR + 1, i => MIN_YEAR + i)
  }

  /** The check at the top of `get_calendar_data`. */
  predicate YearMonthAccepted(year: int, month: int) {
    !(year < MIN_YEAR || year > MAX_YEAR || month < 1 || month > 12)
  }

  /** The years offered are exactly the years the calendar endpoint accepts, ascending. */
  lemma AvailableYearsAccepted(year: int)
    ensures year in AvailableYears() <==> YearMonthAccepted(year, 1)
    ensures forall i, j :: 0 <= i < j < |AvailableYears()| ==> AvailableYears()[i] < AvailableYears()[j]
  {
    if YearMonthAccepted(year, 1) {
      assert AvailableYears()[year - MIN_YEAR] == year;
    }
  }

  /** `[start_date, end_date)`: the first of the month and the first of the next
      month, which for December is January 1 of the next year. */
  function MonthWindow(year: int, month: int): (w: (Date, Date))
    requires 1 <= year && 1 <= month <= 12
    ensures Valid(w.0) && Valid(w.1)
    ensures w.0 == Date(year, month, 1)
    ensures w.1 == NextDay(Date(year, month, DaysInMonth(year, month)))
  {
    (Date(year, month, 1), if month == 12 then Date(year + 1, 1, 1) else Date(year, month + 1, 1))
  }

  /** The query's filter: `start_date <= date < end_date`, dates compared as SQL does. */
  predicate InWindow(d: Date, w: (Date, Date)) {
    !Before(d, w.0) && Before(d, w.1)
  }

  /** A day lies in the window exactly when it is a day of that month, or
      equivalently when its day number lies between the window's ends. */
  lemma WindowIsMonth(year: int, month: int, d: Date)
    requires 1 <= year && 1 <= month <= 12 && Valid(d)
    ensures InWindow(d, MonthWindow(year, month)) <==> d.year == year && d.month == month
    ensures InWindow(d, MonthWindow(year, month)) <==>
      Ordinal(MonthWindow(year, month).0) <= Ordinal(d) < Ordinal(MonthWindow(year, month).1)
  {
    var w := MonthWindow(year, month);
    OrdinalOrder(d, w.0);
    OrdinalOrder(d, w.1);
  }

  /** The rows the month query returns, in table order. */
  function MonthRows(rows: seq<Event>, year: int, month: int): (r: seq<Event>)
    requires 1 <= year && 1 <= month <= 12
    ensures forall e :: e in r <==> e in rows && InWindow(e.date, MonthWindow(year, month))
    ensures |r| <= |rows|
  {
    if rows == [] then []
    else
      var rest := MonthRows(rows[1..], year, month);
      assert forall e :: e in rows <==> e == rows[0] || e in rows[1..];
      if InWindow(rows[0].date, MonthWindow(year, month)) then [rows[0]] + rest else rest
  }

  /** The query returns each row of the window as often as the table holds it, and
      no other row. */
  lemma {:induction false} MonthRowsCount(rows: seq<Event>, year: int, month: int, e: Event)
    requires 1 <= year && 1 <= month <= 12
    ensures multiset(MonthRows(rows, year, month))[e] ==
      if InWindow(e.date, MonthWindow(year, month)) then multiset(rows)[e] else 0
  {
    if rows != [] {
      MonthRowsCount(rows[1..], year, month, e);
      assert rows == [rows[0]] + rows[1..];
    }
  }

  /** The rows of a month of a well-formed table are a well-formed table. */
  lemma {:induction false} MonthRowsWellFormed(rows: seq<Event>, year: int, month: int)
    requires 1 <= year && 1 <= month <= 12 && WellFormed(rows)
    ensures WellFormed(MonthRows(rows, year, month))
  {
    if rows != [] {
      var tail := rows[1..];
      TailWellFormed(rows);
      MonthRowsWellFormed(tail, year, month);
      if InWindow(rows[0].date, MonthWindow(year, month)) {
        var rest := MonthRows(tail, year, month);
        assert forall e :: e in rest ==> e in tail;
        ConsWellFormed(rows[0], rest);
      }
    }
  }

  lemma TailWellFormed(rows: seq<Event>)
    requires WellFormed(rows) && rows != []
    ensures WellFormed(rows[1..])
    ensures forall e :: e in rows[1..] ==> e.id != rows[0].id
  {
    assert forall k :: 0 <= k < |rows| - 1 ==> rows[1..][k] == rows[k + 1];
  }

  lemma ConsWellFormed(x: Event, rest: seq<Event>)
    requires WellFormed(rest) && StoredDate(x.date) && x.id >= 1
    requires forall e :: e in rest ==> e.id != x.id
    ensures WellFormed([x] + rest)
  {
    var r := [x] + rest;
    assert forall j :: 1 <= j < |r| ==> r[j] == rest[j - 1] && r[j] in rest;
  }

  // ------------------------------------------------------- ISO dates

  /** `%m`: `1[0-2]`, `0[1-9]` or `[1-9]`, i.e. one or two digits from 1 to 12. */
  predicate MonthField(t: string) {
    1 <= |t| <= 2 && AllDigits(t) && 1 <= DigitsValue(t) <= 12
  }

  /** `%d`: `3[01]`, `[12]\d`, `0[1-9]`, `[1-9]` or a blank then `[1-9]`. */
  function DayField(t: string): (r: Option<nat>)
    ensures r.Some? ==> 1 <= r.value <= 31
  {
    if 1 <= |t| <= 2 && AllDigits(t) && 1 <= DigitsValue(t) <= 31 then Some(DigitsValue(t))
    else if |t| == 2 && t[0] == ' ' && '1' <= t[1] <= '9' then Some(DigitValue(t[1]))
    else None
  }

  /** `datetime.strptime(s, '%Y-%m-%d').date()`: four digits of year, a month and a
      day field separated by '-', nothing after, and a day that exists; `None` is
      the `ValueError`. */
  function ParseIsoDate(s: string): (r: Option<Date>)
    ensures r.Some? ==> StoredDate(r.value)
  {
    var parts := Split(s, '-');
    if |parts| != 3 || |parts[0]| != 4 || !AllDigits(parts[0]) || !MonthField(parts[1]) || DayField(parts[2]).None? then None
    else
      DigitsValueBound(parts[0]);
      var d := Date(DigitsValue(parts[0]), DigitsValue(parts[1]), DayField(parts[2]).value);
      if Valid(d) then Some(d) else None
  }

  lemma PaddedDigits(n: nat, width: nat)
    ensures AllDigits(PadStart(NatToString(n), width))
    ensures DigitsValue(PadStart(NatToString(n), width)) == n
  {
    var p := PadStart(NatToString(n), width);
    PaddedRoundTrip(n, width);
    ParseIntOfDigits(p);
  }

  /** A number below 10000 padded to four digits is a `%Y` field of that value. */
  lemma YearText(y: nat)
    requires y < 10000
    ensures |PadStart(NatToString(y), 4)| == 4 && AllDigits(PadStart(NatToString(y), 4))
    ensures DigitsValue(PadStart(NatToString(y), 4)) == y
  {
    NatToStringLength(y, 4);
    PaddedDigits(y, 4);
  }

  /** A month padded to two digits is a `%m` field of that value. */
  lemma MonthText(m: nat)
    requires 1 <= m <= 12
    ensures MonthField(PadStart(NatToString(m), 2)) && DigitsValue(PadStart(NatToString(m), 2)) == m
  {
    NatToStringLength(m, 2);
    PaddedDigits(m, 2);
  }

  /** A day padded to two digits is a `%d` field of that value. */
  lemma DayText(d: nat)
    requires 1 <= d <= 31
    ensures DayField(PadStart(NatToString(d), 2)) == Some(d)
  {
    NatToStringLength(d, 2);
    PaddedDigits(d, 2);
  }

  /** `strptime` reads back what `isoformat` writes, on every storable day. */
  lemma IsoDateRoundTrip(d: Date)
    requires StoredDate(d)
    ensures ParseIsoDate(IsoKey(d)) == Some(d)
  {
    SplitDateText(d.year, 4, d.month, d.day);
    YearText(d.year);
    MonthText(d.month);
    DayText(d.day);
  }

  // ------------------------------------------------------- grouping

  function ToDict(e: Event): EventDict
    requires StoredDate(e.date)
  {
    EventDict(e.id, e.title, IsoKey(e.date), e.eventType, e.color, e.description)
  }

  /** The serialized rows, in query order. */
  function AllDicts(rows: seq<Event>): (xs: seq<EventDict>)
    requires AllStored(rows)
    ensures |xs| == |rows|
    ensures forall i :: 0 <= i < |rows| ==> xs[i] == ToDict(rows[i])
    ensures forall i :: 0 <= i < |rows| ==> xs[i].id == rows[i].id
  {
    seq(|rows|, i requires 0 <= i < |rows| => ToDict(rows[i]))
  }

  function DateKeys(xs: seq<EventDict>): set<string> {
    set x | x in xs :: x.date
  }

  /** The dictionaries dated `key`, in query order. */
  function DictsOn(xs: seq<EventDict>, key: string): (ys: seq<EventDict>)
    ensures forall y :: y in ys ==> y.date == key && y in xs
    ensures key !in DateKeys(xs) ==> ys == []
  {
    if xs == [] then []
    else
      var n := |xs| - 1;
      assert forall y :: y in xs[..n] ==> y in xs;
      DictsOn(xs[..n], key) + (if xs[n].date == key then [xs[n]] else [])
  }

  /** The `events_dict` of both endpoints: the ISO date of every row maps to the
      dictionaries of that date. */
  function Grouped(xs: seq<EventDict>): map<string, seq<EventDict>> {
    map k | k in DateKeys(xs) :: DictsOn(xs, k)
  }

  /** One more dictionary appends itself to its date's list, creating the list
      when the date is new. */
  lemma GroupedStep(a: seq<EventDict>, x: EventDict)
    ensures
      var g := Grouped(a);
      Grouped(a + [x]) == g[x.date := (if x.date in g then g[x.date] else []) + [x]]
  {
    var g, h := Grouped(a), Grouped(a + [x]);
    var expected := g[x.date := (if x.date in g then g[x.date] else []) + [x]];
    DateKeysStep(a, x);
    forall k | k in h.Keys ensures h[k] == expected[k] {
      GroupedStepAt(a, x, k);
    }
    assert h.Keys == expected.Keys;
  }

  lemma GroupedStepAt(a: seq<EventDict>, x: EventDict, k: string)
    requires k in DateKeys(a + [x])
    ensures k != x.date ==> k in Grouped(a)
    ensures Grouped(a + [x])[k] ==
      if k != x.date then Grouped(a)[k]
      else (if k in Grouped(a) then Grouped(a)[k] else []) + [x]
  {
    DateKeysStep(a, x);
    DictsOnStep(a, x, k);
  }

  lemma DateKeysStep(a: seq<EventDict>, x: EventDict)
    ensures DateKeys(a + [x]) == DateKeys(a) + {x.date}
  {
    assert forall y :: y in a + [x] <==> y in a || y == x;
  }

  lemma DictsOnStep(a: seq<EventDict>, x: EventDict, k: string)
    ensures DictsOn(a + [x], k) == DictsOn(a, k) + (if x.date == k then [x] else [])
  {
    assert (a + [x])[..|a|] == a;
  }

  /** Each dictionary occurs in the list of its own date as often as in the query
      result, and in no other list. */
  lemma {:induction false} DictsOnCount(xs: seq<EventDict>, key: string, x: EventDict)
    ensures multiset(DictsOn(xs, key))[x] == if x.date == key then multiset(xs)[x] else 0
  {
    if xs != [] {
      var n := |xs| - 1;
      DictsOnCount(xs[..n], key, x);
      assert xs == xs[..n] + [xs[n]];
    }
  }

  /** In a sequence with distinct ids, each element occurs once. */
  lemma DistinctIdsOnce(xs: seq<EventDict>, i: int)
    requires forall j, k :: 0 <= j < k < |xs| ==> xs[j].id != xs[k].id
    requires 0 <= i < |xs|
    ensures multiset(xs)[xs[i]] == 1
  {
    var x := xs[i];
    var before, after := xs[..i], xs[i + 1..];
    assert xs == before + [x] + after;
    assert multiset(before)[x] == 0 by {
      assert forall j :: 0 <= j < |before| ==> before[j] == xs[j];
    }
    assert multiset(after)[x] == 0 by {
      assert forall j :: 0 <= j < |after| ==> after[j] == xs[i + 1 + j];
    }
  }

  /** With distinct ids, every row is serialized exactly once. */
  lemma DictOnce(rows: seq<Event>, i: int)
    requires WellFormed(rows) && 0 <= i < |rows|
    ensures multiset(AllDicts(rows))[ToDict(rows[i])] == 1
  {
    var xs := AllDicts(rows);
    assert forall j, k :: 0 <= j < k < |xs| ==> xs[j].id != xs[k].id;
    DistinctIdsOnce(xs, i);
  }

  /** Every row appears exactly once, in the list under its own ISO date. */
  /** Every row of the month appears exactly once in the month's reply, in the list
      under its own ISO date. */
  lemma MonthGroupedExactlyOnce(rows: seq<Event>, year: int, month: int, e: Event)
    requires 1 <= year && 1 <= month <= 12 && WellFormed(rows)
    requires e in rows && InWindow(e.date, MonthWindow(year, month))
    ensures StoredDate(e.date)
    ensures IsoKey(e.date) in Grouped(AllDicts(MonthRows(rows, year, month)))
    ensures multiset(Grouped(AllDicts(MonthRows(rows, year, month)))[IsoKey(e.date)])[ToDict(e)] == 1
  {
    var r := MonthRows(rows, year, month);
    MonthRowsWellFormed(rows, year, month);
    var j :| 0 <= j < |r| && r[j] == e;
    GroupedExactlyOnce(r, j);
  }

  lemma GroupedExactlyOnce(rows: seq<Event>, i: int)
    requires WellFormed(rows) && 0 <= i < |rows|
    ensures IsoKey(rows[i].date) in Grouped(AllDicts(rows))
    ensures multiset(Grouped(AllDicts(rows))[IsoKey(rows[i].date)])[ToDict(rows[i])] == 1
    ensures forall k :: k in Grouped(AllDicts(rows)) && k != IsoKey(rows[i].date) ==>
      ToDict(rows[i]) !in Grouped(AllDicts(rows))[k]
  {
    var xs := AllDicts(rows);
    var key := IsoKey(rows[i].date);
    assert xs[i] == ToDict(rows[i]) && xs[i].date == key;
    assert key in DateKeys(xs);
    DictOnce(rows, i);
    DictsOnCount(xs, key, ToDict(rows[i]));
  }

  /** The grouping loop of `get_calendar_data` and of the events GET. */
  method GroupByDate(rows: seq<Event>) returns (groups: map<string, seq<EventDict>>)
    requires AllStored(rows)
    ensures groups == Grouped(AllDicts(rows))
  {
    ghost var xs := AllDicts(rows);
    groups := map[];
    for i := 0 to |rows|
      invariant groups == Grouped(xs[..i])
    {
      assert xs[..i + 1] == xs[..i] + [xs[i]];
      GroupedStep(xs[..i], xs[i]);
      var key := IsoKey(rows[i].date);
      var x := ToDict(rows[i]);
      assert x == xs[i] && x.date == key;
      var existing := if key in groups then groups[key] else [];
      groups := groups[key := existing + [x]];
    }
    assert xs[..|rows|] == xs;
  }

  // ------------------------------------------------------- request bodies

  /** A JSON request body: each key absent (`None`) or holding a string. */
  datatype Body = Body(title: Option<string>, date: Option<string>, etype: Option<string>,
                       color: Option<string>, description: Option<string>)

  /** Python truthiness of `data.get(key)`. */
  predicate Truthy(v: Option<string>) {
    v.Some? && v.value != ""
  }

  /** What POST makes of a body: the 400 for a missing title or date, the 500 of a
      date `strptime` rejects, or the fields of the new row. */
  datatype Admission =
    | MissingTitleOrDate
    | BadDate
    | Admitted(title: string, date: Date, etype: string, color: string, description: string)

  function Admit(body: Body): (a: Admission)
    ensures a.MissingTitleOrDate? <==> !Truthy(body.title) || !Truthy(body.date)
    ensures a.BadDate? <==> Truthy(body.title) && Truthy(body.date) && ParseIsoDate(body.date.value).None?
    ensures a.Admitted? ==>
      && a.title == body.title.value && a.title != ""
      && ParseIsoDate(body.date.value) == Some(a.date) && StoredDate(a.date)
      && a.etype == body.etype.GetOr(DEFAULT_TYPE)
      && a.color == body.color.GetOr(DEFAULT_COLOR)
      && a.description == body.description.GetOr("")
  {
    if !Truthy(body.title) || !Truthy(body.date) then MissingTitleOrDate
    else
      match ParseIsoDate(body.date.value)
      case None => BadDate
      case Some(d) =>
        Admitted(body.title.value, d, body.etype.GetOr(DEFAULT_TYPE), body.color.GetOr(DEFAULT_COLOR),
                 body.description.GetOr(""))
  }

  /** A body with a non-empty title, an ISO date and a type, and nothing else, is
      admitted with that day, the default colour and an empty description. */
  lemma AdmitIsoBody(title: string, d: Date, etype: string)
    requires title != "" && StoredDate(d)
    ensures Admit(Body(Some(title), Some(IsoKey(d)), Some(etype), None, None))
      == Admitted(title, d, etype, DEFAULT_COLOR, "")
  {
    IsoDateRoundTrip(d);
  }

  /** PUT: every field the body holds replaces the row's, the others and the id
      stay; `None` when the body's date is one `strptime` rejects. */
  function Patched(e: Event, body: Body): (r: Option<Event>)
    ensures r.None? <==> body.date.Some? && ParseIsoDate(body.date.value).None?
    ensures r.Some? ==>
      && r.value.id == e.id
      && (body.title.None? ==> r.value.title == e.title)
      && (body.title.Some? ==> r.value.title == body.title.value)
      && (body.date.None? ==> r.value.date == e.date)
      && (body.date.Some? ==> Some(r.value.date) == ParseIsoDate(body.date.value))
      && (body.etype.None? ==> r.value.eventType == e.eventType)
      && (body.etype.Some? ==> r.value.eventType == body.etype.value)
      && (body.color.None? ==> r.value.color == e.color)
      && (body.color.Some? ==> r.value.color == body.color.value)
      && (body.description.None? ==> r.value.description == e.description)
      && (body.description.Some? ==> r.value.description == body.description.value)
    ensures r.Some? && StoredDate(e.date) ==> StoredDate(r.value.date)
  {
    var date := if body.date.Some? then ParseIsoDate(body.date.value) else Some(e.date);
    if date.None? then None
    else
      Some(Event(e.id, body.title.GetOr(e.title), date.value, body.etype.GetOr(e.eventType),
                 body.color.GetOr(e.color), body.description.GetOr(e.description)))
  }

  /** Sending the same PUT twice changes nothing the second time, and an empty
      body changes nothing at all. */
  lemma PatchedIdempotent(e: Event, body: Body)
    requires Patched(e, body).Some?
    ensures Patched(Patched(e, body).value, body) == Patched(e, body)
    ensures Patched(e, Body(None, None, None, None, None)) == Some(e)
  {
  }

  // ------------------------------------------------------- table operations

  /** The largest id in the table, 0 for an empty one. */
  function MaxId(rows: seq<Event>): (m: nat)
    ensures forall i :: 0 <= i < |rows| ==> rows[i].id <= m
    ensures m == 0 || exists i :: 0 <= i < |rows| && rows[i].id == m
  {
    if rows == [] then 0
    else
      var n := |rows| - 1;
      var m := MaxId(rows[..n]);
      var last := rows[n].id;
      if last > m then last
      else
        assert m != 0 ==> exists i :: 0 <= i < n && rows[..n][i].id == m;
        assert forall i :: 0 <= i < n ==> rows[..n][i] == rows[i];
        m
  }

  /** The id SQLite gives an inserted row: one more than the largest in the table. */
  function NextId(rows: seq<Event>): (id: int)
    ensures id >= 1 && forall i :: 0 <= i < |rows| ==> rows[i].id < id
  {
    MaxId(rows) + 1
  }

  /** `Event.query.get(id)`: where the row with `id` sits, if any. */
  function IndexOfId(rows: seq<Event>, id: int): (r: Option<nat>)
    ensures r.None? <==> forall i :: 0 <= i < |rows| ==> rows[i].id != id
    ensures r.Some? ==> r.value < |rows| && rows[r.value].id == id
  {
    if rows == [] then None
    else if rows[|rows| - 1].id == id then Some(|rows| - 1)
    else IndexOfId(rows[..|rows| - 1], id)
  }

  predicate HasEvent(rows: seq<Event>, date: Date, title: string) {
    exists i :: 0 <= i < |rows| && rows[i].date == date && rows[i].title == title
  }

  /** One step of `init_database`: the preset is added, with the next id, only when
      no row has its date and title. */
  function SeedOne(rows: seq<Event>, p: Preset): (r: seq<Event>)
    ensures HasEvent(r, p.date, p.title)
    ensures rows <= r && |r| <= |rows| + 1
    ensures |r| == |rows| + 1 <==> !HasEvent(rows, p.date, p.title)
    ensures !HasEvent(rows, p.date, p.title) ==>
      r == rows + [Event(NextId(rows), p.title, p.date, p.etype, p.color, "")]
  {
    if HasEvent(rows, p.date, p.title) then rows
    else
      var r := rows + [Event(NextId(rows), p.title, p.date, p.etype, p.color, "")];
      assert r[|rows|].date == p.date && r[|rows|].title == p.title;
      r
  }

  /** A seeding step keeps the table's invariant. */
  lemma SeedOneWellFormed(rows: seq<Event>, p: Preset)
    requires WellFormed(rows) && StoredDate(p.date)
    ensures WellFormed(SeedOne(rows, p))
  {
  }

  /** The table after the loop of `init_database` over `presets`. */
  function SeedAll(rows: seq<Event>, presets: seq<Preset>): seq<Event> {
    if presets == [] then rows else SeedOne(SeedAll(rows, presets[..|presets| - 1]), presets[|presets| - 1])
  }

  lemma HasEventGrows(a: seq<Event>, b: seq<Event>, date: Date, title: string)
    requires a <= b && HasEvent(a, date, title)
    ensures HasEvent(b, date, title)
  {
    var i :| 0 <= i < |a| && a[i].date == date && a[i].title == title;
    assert b[i] == a[i];
  }

  /** Seeding only appends, and afterwards every preset has a row with its date
      and title. */
  lemma {:induction false} SeedAllCovers(rows: seq<Event>, presets: seq<Preset>)
    ensures rows <= SeedAll(rows, presets)
    ensures forall i :: 0 <= i < |presets| ==> HasEvent(SeedAll(rows, presets), presets[i].date, presets[i].title)
  {
    if presets != [] {
      var n := |presets| - 1;
      var before := SeedAll(rows, presets[..n]);
      SeedAllCovers(rows, presets[..n]);
      forall i | 0 <= i < n
        ensures HasEvent(SeedAll(rows, presets), presets[i].date, presets[i].title)
      {
        assert presets[..n][i] == presets[i];
        HasEventGrows(before, SeedOne(before, presets[n]), presets[i].date, presets[i].title);
      }
    }
  }

  /** A table that already has every preset is left as it is. */
  lemma {:induction false} SeedAllNoop(rows: seq<Event>, presets: seq<Preset>)
    requires forall i :: 0 <= i < |presets| ==> HasEvent(rows, presets[i].date, presets[i].title)
    ensures SeedAll(rows, presets) == rows
  {
    if presets != [] {
      var n := |presets| - 1;
      assert forall i :: 0 <= i < n ==> presets[..n][i] == presets[i];
      SeedAllNoop(rows, presets[..n]);
    }
  }

  /** Seeding twice is seeding once. */
  lemma SeedAllIdempotent(rows: seq<Event>, presets: seq<Preset>)
    ensures SeedAll(SeedAll(rows, presets), presets) == SeedAll(rows, presets)
  {
    SeedAllCovers(rows, presets);
    SeedAllNoop(SeedAll(rows, presets), presets);
  }

  /** Presets with distinct dates, none of them in the table yet, are all added. */
  lemma {:induction false} SeedAllFresh(rows: seq<Event>, presets: seq<Preset>)
    requires forall i :: 0 <= i < |presets| ==> !HasEvent(rows, presets[i].date, presets[i].title)
    requires forall i, j :: 0 <= i < j < |presets| ==> presets[i].date != presets[j].date
    ensures |SeedAll(rows, presets)| == |rows| + |presets|
    ensures forall i :: 0 <= i < |SeedAll(rows, presets)| - |rows| ==>
      SeedAll(rows, presets)[|rows| + i].date == presets[i].date
  {
    if presets != [] {
      var n := |presets| - 1;
      var before := SeedAll(rows, presets[..n]);
      assert forall i :: 0 <= i < n ==> presets[..n][i] == presets[i];
      SeedAllFresh(rows, presets[..n]);
      SeedAllCovers(rows, presets[..n]);
      forall k | 0 <= k < |before|
        ensures !(before[k].date == presets[n].date && before[k].title == presets[n].title)
      {
        if k < |rows| {
          assert before[k] == rows[k];
        } else {
          assert before[|rows| + (k - |rows|)].date == presets[k - |rows|].date;
        }
      }
      assert SeedAll(rows, presets) == before + [Event(NextId(before), presets[n].title, presets[n].date, presets[n].etype, presets[n].color, "")];
    }
  }

  /** An empty table gets all fourteen presets, in table order. */
  lemma SeedEmptyTable()
    ensures |SeedAll([], PRESET_EVENTS)| == 14
  {
    PresetTableFacts();
    SeedAllFresh([], PRESET_EVENTS);
  }

  /** Seeding keeps the table's invariant. */
  lemma {:induction false} SeedAllWellFormed(rows: seq<Event>, presets: seq<Preset>)
    requires forall i :: 0 <= i < |presets| ==> StoredDate(presets[i].date)
    ensures WellFormed(rows) ==> WellFormed(SeedAll(rows, presets))
  {
    if presets != [] {
      var n := |presets| - 1;
      assert forall i :: 0 <= i < n ==> presets[..n][i] == presets[i];
      SeedAllWellFormed(rows, presets[..n]);
      if WellFormed(rows) {
        SeedOneWellFormed(SeedAll(rows, presets[..n]), presets[n]);
      }
    }
  }

  /** Removing the row at `i` removes exactly the rows with its id, and keeps the
      table's invariant. */
  lemma RemoveAt(rows: seq<Event>, i: int)
    requires WellFormed(rows) && 0 <= i < |rows|
    ensures WellFormed(rows[..i] + rows[i + 1..])
    ensures forall e :: e in rows[..i] + rows[i + 1..] <==> e in rows && e.id != rows[i].id
  {
    var rest := rows[..i] + rows[i + 1..];
    assert forall j :: 0 <= j < |rest| ==> rest[j] == rows[if j < i then j else j + 1];
    forall e | e in rows && e.id != rows[i].id ensures e in rest {
      var j :| 0 <= j < |rows| && rows[j] == e;
      assert rest[if j < i then j else j - 1] == e;
    }
  }

  /** The table a handler sees once `init_database` has run. */
  function Initialized(rows: seq<Event>, initialized: bool): (r: seq<Event>)
    ensures WellFormed(rows) ==> WellFormed(r)
  {
    PresetTableFacts();
    SeedAllWellFormed(rows, PRESET_EVENTS);
    if initialized then rows else SeedAll(rows, PRESET_EVENTS)
  }

  // ------------------------------------------------------- replies

  datatype CalendarReply =
    | InvalidYearOrMonth
    | MonthCalendar(year: int, month: int, events: map<string, seq<EventDict>>, colors: map<string, string>)

  datatype PostReply = TitleAndDateRequired | PostFailed | Created(event: EventDict)

  /** Why a PUT or DELETE failed. `get_or_404` raises werkzeug's `NotFound` inside
      the handler's `try`, so an unknown id is caught by `except Exception` like a
      rejected date: both roll back and answer 500 with the exception's text. */
  datatype ItemError = NoSuchEvent | DateRejected

  datatype ItemReply = ItemFailed(error: ItemError) | Updated(event: EventDict) | Deleted

  /** The HTTP status of a PUT or DELETE reply. */
  function ItemStatus(reply: ItemReply): (code: int)
    ensures code == 500 <==> reply.ItemFailed?
    ensures code == 200 <==> !reply.ItemFailed?
  {
    if reply.ItemFailed? then 500 else 200
  }

  /** The database and the `_db_initialized` flag of one server process. */
  class Backend {
    var rows: seq<Event>
    var initialized: bool

    /** A process starting on an existing database file. */
    constructor (existing: seq<Event>)
      requires WellFormed(existing)
      ensures rows == existing && !initialized
    {
      rows := existing;
      initialized := false;
    }

    /** `init_database`: once per process, adds each preset lacking a row with its
      date and title, then sets the flag. */
    method InitDatabase()
      requires WellFormed(rows)
      modifies this
      ensures initialized && WellFormed(rows)
      ensures rows == Initialized(old(rows), old(initialized))
    {
      if initialized {
        return;
      }
      for i := 0 to |PRESET_EVENTS|
        invariant rows == SeedAll(old(rows), PRESET_EVENTS[..i])
        invariant WellFormed(rows)
      {
        var p := PRESET_EVENTS[i];
        assert PRESET_EVENTS[..i + 1][..i] == PRESET_EVENTS[..i];
        assert StoredDate(p.date) by {
          PresetTableFacts();
        }
        SeedOneWellFormed(rows, p);
        if !HasEvent(rows, p.date, p.title) {
          rows := rows + [Event(NextId(rows), p.title, p.date, p.etype, p.color, "")];
        }
      }
      assert PRESET_EVENTS[..|PRESET_EVENTS|] == PRESET_EVENTS;
      initialized := true;
    }

    /** `get_calendar_data`: the 400 outside 2025-2035 and 1-12, otherwise the rows
      of the month's window grouped by date, with the colour table. */
    method GetCalendarData(year: int, month: int) returns (reply: CalendarReply)
      requires WellFormed(rows)
      modifies this
      ensures initialized && WellFormed(rows) && rows == Initialized(old(rows), old(initialized))
      ensures reply.InvalidYearOrMonth? <==> !YearMonthAccepted(year, month)
      ensures reply.MonthCalendar? ==>
        reply == MonthCalendar(year, month, Grouped(AllDicts(MonthRows(rows, year, month))), EVENT_COLORS)
    {
      InitDatabase();
      if year < MIN_YEAR || year > MAX_YEAR || month < 1 || month > 12 {
        return InvalidYearOrMonth;
      }
      var inMonth := MonthRows(rows, year, month);
      var groups := GroupByDate(inMonth);
      reply := MonthCalendar(year, month, groups, EVENT_COLORS);
    }

    /** GET `/api/events`: every row, grouped by date. */
    method ListEvents() returns (groups: map<string, seq<EventDict>>)
      requires WellFormed(rows)
      modifies this
      ensures initialized && WellFormed(rows) && rows == Initialized(old(rows), old(initialized))
      ensures groups == Grouped(AllDicts(rows))
    {
      InitDatabase();
      groups := GroupByDate(rows);
    }

    /** POST `/api/events`: appends the admitted row with the next id and returns
      it; the table is left alone on a 400 or a 500. */
    method CreateEvent(body: Body) returns (reply: PostReply)
      requires WellFormed(rows)
      modifies this
      ensures initialized && WellFormed(rows)
      ensures
        var table := Initialized(old(rows), old(initialized));
        match Admit(body)
        case MissingTitleOrDate => reply == TitleAndDateRequired && rows == table
        case BadDate => reply == PostFailed && rows == table
        case Admitted(title, date, etype, color, description) =>
          var e := Event(NextId(table), title, date, etype, color, description);
          rows == table + [e] && reply == Created(ToDict(e))
    {
      InitDatabase();
      match Admit(body)
      case MissingTitleOrDate =>
        reply := TitleAndDateRequired;
      case BadDate =>
        reply := PostFailed;
      case Admitted(title, date, etype, color, description) =>
        var e := Event(NextId(rows), title, date, etype, color, description);
        rows := rows + [e];
        reply := Created(ToDict(e));
    }

    /** PUT `/api/events/<id>`: a 500 and no change for an unknown id (the caught
      `NotFound`) or a bad date, otherwise the row is patched in place. */
    method UpdateEvent(id: int, body: Body) returns (reply: ItemReply)
      requires WellFormed(rows)
      modifies this
      ensures initialized && WellFormed(rows)
      ensures
        var table := Initialized(old(rows), old(initialized));
        match IndexOfId(table, id)
        case None => reply == ItemFailed(NoSuchEvent) && rows == table
        case Some(i) =>
          match Patched(table[i], body)
          case None => reply == ItemFailed(DateRejected) && rows == table
          case Some(e) => rows == table[i := e] && reply == Updated(ToDict(e))
    {
      InitDatabase();
      var found := IndexOfId(rows, id);
      if found.None? {
        return ItemFailed(NoSuchEvent);
      }
      var i := found.value;
      var patched := Patched(rows[i], body);
      if patched.None? {
        return ItemFailed(DateRejected);
      }
      rows := rows[i := patched.value];
      reply := Updated(ToDict(patched.value));
    }

    /** DELETE `/api/events/<id>`: a 500 and no change for an unknown id (the caught
      `NotFound`), otherwise exactly the row with that id leaves the table and the
      others keep their order. */
    method DeleteEvent(id: int) returns (reply: ItemReply)
      requires WellFormed(rows)
      modifies this
      ensures initialized && WellFormed(rows)
      ensures
        var table := Initialized(old(rows), old(initialized));
        match IndexOfId(table, id)
        case None => reply == ItemFailed(NoSuchEvent) && rows == table
        case Some(i) => reply == Deleted && rows == table[..i] + table[i + 1..]
      ensures forall e :: e in rows <==> e in Initialized(old(rows), old(initialized)) && e.id != id
    {
      InitDatabase();
      var found := IndexOfId(rows, id);
      if found.None? {
        return ItemFailed(NoSuchEvent);
      }
      var i := found.value;
      RemoveAt(rows, i);
      rows := rows[..i] + rows[i + 1..];
      reply := Deleted;
    }
  }
}
