/** What the calendar page derives from its state without changing it: the
    static type tables, the styling of one day cell (a user event painted over a
    preset), the entries of a month's event list and their order, and what the
    edit dialog is pre-filled with. */
module Display {
  import opened Wrappers
  import opened Dates

  /** Display name of each event type the edit form offers. */
  const EVENT_TYPE_NAMES: map<string, string> := map[
    "holiday" := "节假日",
    "work" := "工作日",
    "personal" := "个人事件",
    "meeting" := "会议",
    "birthday" := "生日",
    "anniversary" := "纪念日",
    "other" := "其他"]

  /** Colour of each event type the edit form offers. */
  const EVENT_COLORS: map<string, string> := map[
    "holiday" := "#ff6b6b",
    "work" := "#4ecdc4",
    "personal" := "#45b7d1",
    "meeting" := "#96ceb4",
    "birthday" := "#feca57",
    "anniversary" := "#ff9ff3",
    "other" := "#a8a8a8"]

  /** `EVENT_TYPE_NAMES[type]`; `None` (undefined) for a type outside the table,
      such as the server's preset types. */
  function TypeName(etype: string): Option<string> {
    Lookup(EVENT_TYPE_NAMES, etype)
  }

  /** `EVENT_COLORS[type]`; `None` (undefined) for a type outside the table. */
  function ColorOf(etype: string): Option<string> {
    Lookup(EVENT_COLORS, etype)
  }

  /** Every type the form offers has both a name and a colour. */
  lemma TablesAgree(etype: string)
    ensures TypeName(etype).Some? <==> ColorOf(etype).Some?
  {
  }

  /** A preset as the client reads it from a month's `events`; an absent title is "". */
  datatype PresetEvent = PresetEvent(title: string, etype: string)

  /** An entry of `userEvents`; `id` is absent unless a create call returned one. */
  datatype UserEvent = UserEvent(id: Option<int>, title: string, etype: string, color: Option<string>)

  /** One month of `yearCalendarData`, reduced to its date-keyed presets. */
  datatype MonthData = MonthData(events: map<string, PresetEvent>)

  /** `event.title || EVENT_TYPE_NAMES[event.type]`. */
  function DisplayTitle(title: string, etype: string): (r: Option<string>)
    ensures title != "" ==> r == Some(title)
    ensures title == "" ==> r == TypeName(etype)
  {
    if title != "" then Some(title) else TypeName(etype)
  }

  // ------------------------------------------------------- day cells

  /** The classes and background colour of a day cell. */
  datatype CellStyle = CellStyle(classes: set<string>, background: Option<string>)

  /** `classList.add('has-event', type)` then `style.backgroundColor = EVENT_COLORS[type]`.
      Assigning undefined is an invalid colour, which the style object ignores, so the
      previous background stays. */
  function Paint(style: CellStyle, etype: string): CellStyle {
    CellStyle(style.classes + {"has-event", etype},
              if ColorOf(etype).Some? then ColorOf(etype) else style.background)
  }

  /** A day cell: painted for its preset first and for its user event second, so
      the user event's colour wins whenever both exist and it has one. */
  function DayCell(preset: Option<PresetEvent>, user: Option<UserEvent>): (r: CellStyle)
    ensures user.Some? ==> "has-event" in r.classes && user.value.etype in r.classes
    ensures preset.Some? ==> "has-event" in r.classes && preset.value.etype in r.classes
    ensures preset.None? && user.None? ==> r == CellStyle({}, None)
    ensures user.Some? && ColorOf(user.value.etype).Some? ==> r.background == ColorOf(user.value.etype)
    ensures user.None? && preset.Some? ==> r.background == ColorOf(preset.value.etype)
    ensures user.Some? && ColorOf(user.value.etype).None? ==>
      r.background == if preset.Some? then ColorOf(preset.value.etype) else None
    ensures r.classes <= {"has-event"} + (if preset.Some? then {preset.value.etype} else {})
      + (if user.Some? then {user.value.etype} else {})
    ensures r.background.Some? ==> r.background.value in EVENT_COLORS.Values
  {
    var base := CellStyle({}, None);
    var afterPreset := if preset.Some? then Paint(base, preset.value.etype) else base;
    if user.Some? then Paint(afterPreset, user.value.etype) else afterPreset
  }

  // ------------------------------------------------- month event list

  /** One row of a month's event list. */
  datatype ListEntry = ListEntry(date: string, day: nat, title: Option<string>, etype: string, isPreset: bool)

  /** Whether `parseInt` of a key's year and month parts give `year` and `month`
      (and its day part gives a number). */
  predicate InMonth(key: string, year: int, month: int) {
    var f := ParseKey(key);
    f.year == Some(year) && f.month == Some(month) && f.day.Some?
  }

  function Entry(key: string, title: string, etype: string, isPreset: bool): (e: ListEntry)
    requires ParseKey(key).day.Some?
    ensures e.date == key && e.isPreset == isPreset && e.day == ParseKey(key).day.value
    ensures e.title == DisplayTitle(title, etype) && e.etype == etype
  {
    ListEntry(key, ParseKey(key).day.value, DisplayTitle(title, etype), etype, isPreset)
  }

  function PresetEntry(key: string, p: PresetEvent): ListEntry
    requires ParseKey(key).day.Some?
  {
    Entry(key, p.title, p.etype, true)
  }

  function UserEntry(key: string, u: UserEvent): ListEntry
    requires ParseKey(key).day.Some?
  {
    Entry(key, u.title, u.etype, false)
  }

  /** The keys of `keys` that fall in the given month. */
  function MonthKeys(keys: set<string>, year: int, month: int): set<string> {
    set k | k in keys && InMonth(k, year, month)
  }

  /** The list entries of the presets in the given month. */
  function PresetEntries(presets: map<string, PresetEvent>, year: int, month: int): set<ListEntry> {
    set k | k in presets && InMonth(k, year, month) :: PresetEntry(k, presets[k])
  }

  /** The list entries of the user events in the given month. */
  function UserEntries(users: map<string, UserEvent>, year: int, month: int): set<ListEntry> {
    set k | k in users && InMonth(k, year, month) :: UserEntry(k, users[k])
  }

  predicate SortedByDay(s: seq<ListEntry>) {
    forall i, j :: 0 <= i < j < |s| ==> s[i].day <= s[j].day
  }

  /** On a day shared by a preset and a user entry, the preset comes first. */
  predicate PresetFirstOnTies(s: seq<ListEntry>) {
    forall i, j :: 0 <= i < j < |s| && s[i].day == s[j].day && s[j].isPreset ==> s[i].isPreset
  }

  /** Every preset entry precedes every user entry. */
  predicate PresetsBeforeUsers(s: seq<ListEntry>) {
    forall i, j :: 0 <= i < j < |s| && s[j].isPreset ==> s[i].isPreset
  }

  /** Inserts `x` before the first entry of `s` whose day is not earlier. */
  function InsertByDay(x: ListEntry, s: seq<ListEntry>): (r: seq<ListEntry>)
    requires SortedByDay(s)
    ensures |r| == |s| + 1 && (r[0] == x || (s != [] && r[0] == s[0]))
    ensures forall e :: e in r <==> e == x || e in s
    ensures SortedByDay(r)
    ensures multiset(r) == multiset(s) + multiset{x}
  {
    if s == [] || x.day <= s[0].day then [x] + s
    else
      var rest := InsertByDay(x, s[1..]);
      assert s == [s[0]] + s[1..];
      [s[0]] + rest
  }

  /** `monthEvents.sort((a, b) => a.day - b.day)`: a stable sort by day. */
  function SortByDay(s: seq<ListEntry>): (r: seq<ListEntry>)
    ensures SortedByDay(r)
    ensures multiset(r) == multiset(s)
  {
    if s == [] then []
    else
      assert s == [s[0]] + s[1..];
      InsertByDay(s[0], SortByDay(s[1..]))
  }

  lemma {:induction false} InsertKeepsPresetFirst(x: ListEntry, s: seq<ListEntry>)
    requires SortedByDay(s) && PresetFirstOnTies(s)
    requires x.isPreset || forall e :: e in s ==> !e.isPreset
    ensures PresetFirstOnTies(InsertByDay(x, s))
  {
    if s == [] || x.day <= s[0].day {
      var r := [x] + s;
      forall i, j | 0 <= i < j < |r| && r[i].day == r[j].day && r[j].isPreset
        ensures r[i].isPreset
      {
        if i > 0 {
          assert r[i] == s[i - 1] && r[j] == s[j - 1];
        } else {
          assert r[j] == s[j - 1] && s[j - 1] in s;
        }
      }
    } else {
      InsertKeepsPresetFirst(x, s[1..]);
      var rest := InsertByDay(x, s[1..]);
      var r := [s[0]] + rest;
      assert InsertByDay(x, s) == r;
      forall i, j | 0 <= i < j < |r| && r[i].day == r[j].day && r[j].isPreset
        ensures r[i].isPreset
      {
        if i == 0 {
          assert r[j] in rest;
          if r[j] != x {
            var k :| 0 <= k < |s| - 1 && s[1..][k] == r[j];
            assert s[0] == r[i] && s[k + 1] == r[j];
          }
        } else {
          assert r[i] == rest[i - 1] && r[j] == rest[j - 1];
        }
      }
    }
  }

  /** Sorting a list whose presets all come before its user entries keeps each
      preset ahead of the user entries of its day (the sort is stable). */
  lemma {:induction false} SortKeepsPresetFirst(s: seq<ListEntry>)
    requires PresetsBeforeUsers(s)
    ensures PresetFirstOnTies(SortByDay(s))
  {
    if s != [] {
      var tail := s[1..];
      assert PresetsBeforeUsers(tail) by {
        forall i, j | 0 <= i < j < |tail| && tail[j].isPreset ensures tail[i].isPreset {
          assert tail[i] == s[i + 1] && tail[j] == s[j + 1];
        }
      }
      SortKeepsPresetFirst(tail);
      var sorted := SortByDay(tail);
      if !s[0].isPreset {
        forall e | e in sorted ensures !e.isPreset {
          assert e in multiset(sorted);
          var k :| 0 <= k < |tail| && tail[k] == e;
          assert s[k + 1] == e;
        }
      }
      InsertKeepsPresetFirst(s[0], sorted);
    }
  }

  /** What `updateEventsListForMonth` lists for a month: ordered by day, a preset
      ahead of a user entry on the same day, holding exactly the preset and user
      entries whose keys fall in the month, one per key of either map, with no
      merging of a preset and a user event that share a date. */
  ghost predicate IsMonthList(list: seq<ListEntry>, presets: map<string, PresetEvent>, users: map<string, UserEvent>, year: int, month: int) {
    && SortedByDay(list)
    && PresetFirstOnTies(list)
    && (forall e :: e in list <==> e in PresetEntries(presets, year, month) || e in UserEntries(users, year, month))
    && |list| == |MonthKeys(presets.Keys, year, month)| + |MonthKeys(users.Keys, year, month)|
  }

  /** A user event stored under a day's ISO key is listed in that day's month and
      year, on that day. */
  lemma IsoKeyListed(d: Date, users: map<string, UserEvent>)
    requires Valid(d) && IsoKey(d) in users
    ensures InMonth(IsoKey(d), d.year, d.month) && ParseKey(IsoKey(d)).day == Some(d.day)
    ensures UserEntry(IsoKey(d), users[IsoKey(d)]) in UserEntries(users, d.year, d.month)
    ensures UserEntry(IsoKey(d), users[IsoKey(d)]).day == d.day
  {
    DateTextRoundTrip(d.year, 4, d.month, d.day);
  }

  /** The first `forEach` of `updateEventsListForMonth`: an entry for each preset
      key of the month, in whatever order the map enumerates its keys. */
  method CollectPresets(presets: map<string, PresetEvent>, year: int, month: int) returns (found: seq<ListEntry>)
    ensures |found| == |MonthKeys(presets.Keys, year, month)|
    ensures forall e :: e in found <==> e in PresetEntries(presets, year, month)
  {
    found := [];
    var remaining := presets.Keys;
    ghost var taken: set<string> := {};
    while remaining != {}
      invariant remaining <= presets.Keys
      invariant forall k :: k in taken <==> k in presets && k !in remaining && InMonth(k, year, month)
      invariant |found| == |taken|
      invariant forall i :: 0 <= i < |found| ==>
        found[i].date in taken && found[i] == PresetEntry(found[i].date, presets[found[i].date])
      invariant forall k :: k in taken ==> PresetEntry(k, presets[k]) in found
      decreases remaining
    {
      var key :| key in remaining;
      remaining := remaining - {key};
      if InMonth(key, year, month) {
        found := found + [PresetEntry(key, presets[key])];
        taken := taken + {key};
      }
    }
    assert taken == MonthKeys(presets.Keys, year, month);
  }

  /** The second `forEach`: an entry for each user key of the month. */
  method CollectUsers(users: map<string, UserEvent>, year: int, month: int) returns (found: seq<ListEntry>)
    ensures |found| == |MonthKeys(users.Keys, year, month)|
    ensures forall e :: e in found <==> e in UserEntries(users, year, month)
  {
    found := [];
    var remaining := users.Keys;
    ghost var taken: set<string> := {};
    while remaining != {}
      invariant remaining <= users.Keys
      invariant forall k :: k in taken <==> k in users && k !in remaining && InMonth(k, year, month)
      invariant |found| == |taken|
      invariant forall i :: 0 <= i < |found| ==>
        found[i].date in taken && found[i] == UserEntry(found[i].date, users[found[i].date])
      invariant forall k :: k in taken ==> UserEntry(k, users[k]) in found
      decreases remaining
    {
      var key :| key in remaining;
      remaining := remaining - {key};
      if InMonth(key, year, month) {
        found := found + [UserEntry(key, users[key])];
        taken := taken + {key};
      }
    }
    assert taken == MonthKeys(users.Keys, year, month);
  }

  /** `updateEventsListForMonth` once the month's data is there: the presets'
      entries, then the user events' entries, then the stable sort by day. */
  method MonthEventList(presets: map<string, PresetEvent>, users: map<string, UserEvent>, year: int, month: int)
    returns (list: seq<ListEntry>)
    ensures IsMonthList(list, presets, users, year, month)
  {
    var fromPresets := CollectPresets(presets, year, month);
    var fromUsers := CollectUsers(users, year, month);
    var collected := fromPresets + fromUsers;
    assert PresetsBeforeUsers(collected) by {
      assert forall e :: e in fromPresets ==> e.isPreset;
      assert forall e :: e in fromUsers ==> !e.isPreset;
      forall i, j | 0 <= i < j < |collected| && collected[j].isPreset ensures collected[i].isPreset {
        if j < |fromPresets| {
          assert collected[i] in fromPresets;
        } else {
          assert false;
        }
      }
    }
    list := SortByDay(collected);
    SortKeepsPresetFirst(collected);
    forall e ensures e in list <==> e in collected {
      assert e in list <==> e in multiset(list);
    }
    assert |list| == |multiset(list)| == |multiset(collected)| == |collected|;
  }

  // ------------------------------------------------------ edit dialog

  /** The preset `openEventModal` finds for a key: the month is `parseInt` of the
      key's second part, then that month's `events[key]`. */
  function PresetOn(key: string, yearData: map<int, MonthData>): (r: Option<PresetEvent>)
    ensures var m := ParseKey(key).month;
      r.Some? <==> m.Some? && m.value in yearData && key in yearData[m.value].events
    ensures r.Some? ==> var m := ParseKey(key).month;
      m.Some? && m.value in yearData && key in yearData[m.value].events && r.value == yearData[m.value].events[key]
  {
    var m := ParseKey(key).month;
    if m.Some? && m.value in yearData && key in yearData[m.value].events
    then Some(yearData[m.value].events[key])
    else None
  }

  /** What the edit dialog shows; `etype` `None` leaves the type selector at its
      default after `form.reset()`. */
  datatype ModalForm = ModalForm(startDate: string, endDate: string, title: string, etype: Option<string>, deleteVisible: bool)

  /** The dialog opened on `key`: both range ends are `key`; title and type come from
      the user event there if any, else from the preset; delete is offered only for a
      user event on a day without a preset. */
  function Prefill(key: string, yearData: map<int, MonthData>, users: map<string, UserEvent>): (r: ModalForm)
    ensures r.startDate == key && r.endDate == key
    ensures key in users ==> r.title == users[key].title && r.etype == Some(users[key].etype)
    ensures key !in users && PresetOn(key, yearData).Some? ==>
      r.title == PresetOn(key, yearData).value.title && r.etype == Some(PresetOn(key, yearData).value.etype)
    ensures key !in users && PresetOn(key, yearData).None? ==> r.title == "" && r.etype == None
    ensures r.deleteVisible <==> key in users && PresetOn(key, yearData).None?
  {
    var preset := PresetOn(key, yearData);
    if key in users then
      ModalForm(key, key, users[key].title, Some(users[key].etype), preset.None?)
    else if preset.Some? then
      ModalForm(key, key, preset.value.title, Some(preset.value.etype), false)
    else
      ModalForm(key, key, "", None, false)
  }
}
