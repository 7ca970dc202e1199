/**
 * The row-to-event transformer of src/calendar.js: one spreadsheet row (a map
 * from column name to cell text) becomes either nothing (the date does not
 * parse) or one event record for the calendar widget.
 */
module CalendarEvents {
  import opened Wrappers
  import opened JsText
  import opened CalendarCells

  // ---------------------------------------------------------------------------
  // The event record and isPastEvent

  datatype ExtendedProps = ExtendedProps(location: string, category: string, canceled: bool)

  datatype Event = Event(
    title: string,
    start: int,
    end: Option<int>,
    allDay: bool,
    extendedProps: ExtendedProps,
    classNames: seq<string>)

  /** The instant an event is judged by: its end when it has one, else its start. */
  function RefTime(ev: Event): int {
    if ev.end.Some? then ev.end.value else ev.start
  }

  /** 23:59:59.999 on the day of `t`. */
  function EndOfDay(t: int): (r: int)
    ensures Day(r) == Day(t) && t <= r
    ensures r + 1 == (Day(t) + 1) * MsPerDay
  {
    DayOf(Day(t), MsPerDay - 1);
    Day(t) * MsPerDay + MsPerDay - 1
  }

  /**
   * `isPastEvent` with the current time `now` as a parameter: an all-day event
   * is past once the last millisecond of the day of its end (of its start when
   * it has no end) is before `now`; a timed event once its end (its start when
   * it has no end) is. Either way the instant it is judged by is before `now`.
   */
  function IsPastEvent(ev: Event, now: int): (r: bool)
    ensures r ==> RefTime(ev) < now
  {
    var ref := RefTime(ev);
    if ev.allDay then EndOfDay(ref) < now else ref < now
  }

  /** An all-day event is past exactly when its day is before the day of `now`. */
  lemma AllDayPastIff(ev: Event, now: int)
    requires ev.allDay
    ensures IsPastEvent(ev, now) <==> Day(RefTime(ev)) < Day(now)
  {
    var ref, k := RefTime(ev), Day(now);
    DayOf(k, now % MsPerDay);
    assert now == k * MsPerDay + now % MsPerDay;
    assert EndOfDay(ref) + 1 == (Day(ref) + 1) * MsPerDay;
  }

  /** Whether an event is past does not depend on its classes. */
  lemma PastIgnoresClasses(ev: Event, classNames: seq<string>, now: int)
    ensures IsPastEvent(ev.(classNames := classNames), now) == IsPastEvent(ev, now)
  {
    assert RefTime(ev.(classNames := classNames)) == RefTime(ev);
  }

  /** Once an event is past it stays past. */
  lemma PastStaysPast(ev: Event, now: int, later: int)
    requires now <= later
    requires IsPastEvent(ev, now)
    ensures IsPastEvent(ev, later)
  {
    if ev.allDay {
      AllDayPastIff(ev, now);
      AllDayPastIff(ev, later);
      assert Day(now) <= Day(later);
    }
  }

  // ---------------------------------------------------------------------------
  // toFullCalendarEvent

  function DateField(row: Row): Option<string> {
    Coalesce(Get(row, "Event Date"), Get(row, "Date"))
  }

  function StartField(row: Row): Option<string> {
    Coalesce(Get(row, "Start Time"), Get(row, "Start"))
  }

  function EndField(row: Row): Option<string> {
    Coalesce(Get(row, "End Time"), Get(row, "End"))
  }

  /** `s || fallback` for a string `s`. */
  function OrDefault(s: string, fallback: string): (r: string)
    ensures s != "" ==> r == s
    ensures s == "" ==> r == fallback
  {
    if s == "" then fallback else s
  }

  /** The trimmed "Title" cell, "Event" when that is empty; no other column is read. */
  function TitleOf(row: Row): string {
    OrDefault(Trim(Text(Get(row, "Title"))), "Event")
  }

  function LocationOf(row: Row): string {
    Trim(Text(Get(row, "Location")))
  }

  function CategoryOf(row: Row): string {
    OrDefault(Trim(Text(Get(row, "Category"))), "Other")
  }

  /** The classes, in the order they are pushed. */
  function ClassNames(canceled: bool, past: bool): seq<string> {
    (if canceled then ["is-canceled"] else []) + (if past then ["is-past"] else [])
  }

  lemma CanceledPush(canceled: bool, pushed: seq<string>)
    requires pushed == if canceled then [] + ["is-canceled"] else []
    ensures pushed == ClassNames(canceled, false)
  {
  }

  lemma PastPush(canceled: bool, past: bool, pushed: seq<string>, classNames: seq<string>)
    requires pushed == ClassNames(canceled, false)
    requires classNames == if past then pushed + ["is-past"] else pushed
    ensures classNames == ClassNames(canceled, past)
  {
  }

  /**
   * `toFullCalendarEvent`, with the current time as a parameter. Nothing when
   * the date does not parse; otherwise an event on that date whose start is
   * the start time (midnight and all-day when there is none), whose end is the
   * end time on the same date only when that is strictly later, and whose
   * classes are "is-canceled" then "is-past", each only when it applies.
   */
  method ToFullCalendarEvent(row: Row, now: int) returns (r: Option<Event>)
    ensures r.None? <==> ParseMMDDYYYY(DateField(row)).None?
    ensures "Event Date" in row ==> (r.None? <==> ParseMMDDYYYY(Some(row["Event Date"])).None?)
    ensures r.Some? ==> r.value.title == TitleOf(row)
    ensures r.Some? ==>
      r.value.extendedProps == ExtendedProps(LocationOf(row), CategoryOf(row), Truthy(Get(row, "Canceled")))
    ensures r.Some? ==> (r.value.allDay <==> ParseHHMM24(StartField(row)).None?)
    ensures r.Some? ==>
      r.value.start == MakeLocalDate(ParseMMDDYYYY(DateField(row)).value, ParseHHMM24(StartField(row)))
    ensures r.Some? ==>
      var startTime, endTime := ParseHHMM24(StartField(row)), ParseHHMM24(EndField(row));
      (r.value.end.Some? <==> endTime.Some? && MinuteOfDay(endTime) > MinuteOfDay(startTime))
    ensures r.Some? && r.value.end.Some? ==>
      r.value.end.value == MakeLocalDate(ParseMMDDYYYY(DateField(row)).value, ParseHHMM24(EndField(row)))
      && r.value.start < r.value.end.value
    ensures r.Some? ==>
      r.value.classNames == ClassNames(r.value.extendedProps.canceled, IsPastEvent(r.value, now))
  {
    var eventDate := ParseMMDDYYYY(DateField(row));
    if eventDate.None? {
      return None;
    }

    var startTime := ParseHHMM24(StartField(row));
    var endTime := ParseHHMM24(EndField(row));

    var title := TitleOf(row);
    var location := LocationOf(row);
    var category := CategoryOf(row);
    var canceled := Truthy(Get(row, "Canceled"));

    var allDay := startTime.None?;
    var start := MakeLocalDate(eventDate.value, startTime);

    var end: Option<int> := None;
    if endTime.Some? {
      end := Some(MakeLocalDate(eventDate.value, endTime));
      SameDateOrder(eventDate.value, startTime, endTime);
      if end.value <= start {
        end := None;
      }
    }

    var ev := Event(title, start, end, allDay, ExtendedProps(location, category, canceled), []);
    if canceled {
      ev := ev.(classNames := ev.classNames + ["is-canceled"]);
    }
    ghost var pushed := ev.classNames;
    CanceledPush(canceled, pushed);
    var past := IsPastEvent(ev, now);
    if past {
      ev := ev.(classNames := ev.classNames + ["is-past"]);
    }
    PastPush(canceled, past, pushed, ev.classNames);
    PastIgnoresClasses(ev, pushed, now);
    return Some(ev);
  }
}
