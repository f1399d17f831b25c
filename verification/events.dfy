/** The events list of the media editor: the flyer file check, the
    12-hour time display, each event's status relative to the current
    time, and the list shown after the date and status filters and the
    sort order are applied. Parsing dates is the browser's and is a
    parameter here; so is the current time. */
module Events {
  import opened Base
  import opened Text

  datatype Event = Event(id: string, title: string, date: string, time: string, location: string)

  /** What the model needs from JavaScript's `Date`: the time value of a
      parsed date string (None for an invalid date), and `toDateString`
      of a time value (None gives the text of an invalid date). */
  datatype Calendar = Calendar(parse: string -> Option<int>, dayString: Option<int> -> string)

  /** `new Date(`${date} ${time}`)`. */
  function DateTime(cal: Calendar, e: Event): Option<int>
  {
    cal.parse(e.date + " " + e.time)
  }

  // ---------------------------------------------------------------------
  // The flyer file

  const AllowedTypes: seq<string> := ["image/jpeg", "image/jpg", "image/png", "image/gif", "image/webp"]

  /** 5 MB. */
  const MaxFlyerSize: nat := 5 * 1024 * 1024

  const TypeAlert := "Please select a valid image file (JPEG, PNG, GIF, WebP)"
  const SizeAlert := "File size must be less than 5MB"

  /** The chosen flyer and the value of the form's flyer field. */
  datatype FlyerState = FlyerState(selected: Option<File>, flyer: Option<File>)

  /** `handleFileSelect`: no file changes nothing; a file of another type,
      or one larger than 5 MB, raises its alert and changes nothing;
      otherwise the file becomes the selection and the form's flyer. */
  function HandleFileSelect(st: FlyerState, file: Option<File>): (r: (FlyerState, Option<string>))
    ensures file.Some? && file.value.mimeType !in AllowedTypes ==> r == (st, Some(TypeAlert))
    ensures file.Some? && file.value.mimeType in AllowedTypes && file.value.size > MaxFlyerSize ==> r == (st, Some(SizeAlert))
    ensures file.Some? && file.value.mimeType in AllowedTypes && file.value.size <= MaxFlyerSize ==>
      r == (FlyerState(file, file), None)
    ensures file.None? ==> r == (st, None)
  {
    match file
    case None => (st, None)
    case Some(f) =>
      if f.mimeType !in AllowedTypes then (st, Some(TypeAlert))
      else if f.size > MaxFlyerSize then (st, Some(SizeAlert))
      else (FlyerState(file, file), None)
  }

  /** Choosing the same file twice is the same as choosing it once. */
  lemma FileSelectIdempotent(st: FlyerState, f: File)
    ensures var once := HandleFileSelect(st, Some(f)).0;
      HandleFileSelect(once, Some(f)).0 == once
  {
  }

  // ---------------------------------------------------------------------
  // 12-hour time

  /** The hour shown on a 12-hour clock for `hour24` (`0` shows as 12). */
  function Hour12(hour24: int): int
  {
    if hour24 == 0 then 12 else if hour24 > 12 then hour24 - 12 else hour24
  }

  function Meridiem(hour24: int): string
  {
    if hour24 >= 12 then "PM" else "AM"
  }

  /** Every hour of the day shows as 1 to 12, and the shown hour with its
      AM/PM gives back the hour of the day. */
  lemma Hour12RoundTrip(h: int)
    requires 0 <= h <= 23
    ensures 1 <= Hour12(h) <= 12
    ensures h == 0 ==> Hour12(h) == 12 && Meridiem(h) == "AM"
    ensures 1 <= h <= 11 ==> Hour12(h) == h && Meridiem(h) == "AM"
    ensures h == 12 ==> Hour12(h) == 12 && Meridiem(h) == "PM"
    ensures 13 <= h ==> Hour12(h) == h - 12 && Meridiem(h) == "PM"
    ensures To24(Hour12(h), Meridiem(h)) == h
  {
  }

  /** Reading a 12-hour time back as an hour of the day. */
  function To24(hour12: int, meridiem: string): int
  {
    if meridiem == "AM" then (if hour12 == 12 then 0 else hour12)
    else (if hour12 == 12 then 12 else hour12 + 12)
  }

  /** `formatTime`: the hour before the first ':' read by `parseInt` and
      shown on a 12-hour clock, the text after it copied as the minutes
      (the text "undefined" when there is no ':'). An hour `parseInt`
      cannot read shows as "NaN" with "AM". */
  function FormatTime(time: string): (r: string)
    ensures |r| >= 3 && (r[|r| - 3..] == " AM" || r[|r| - 3..] == " PM")
  {
    var parts := Split(time, ':');
    var minutes := if |parts| >= 2 then parts[1] else "undefined";
    var (shown, meridiem) := ShownHour(parts[0]);
    EndsWith(shown + ":" + minutes, meridiem);
    shown + ":" + minutes + " " + meridiem
  }

  /** The hour text as `formatTime` shows it, with its AM/PM. */
  function ShownHour(hourText: string): (r: (string, string))
    ensures r.1 == "AM" || r.1 == "PM"
    ensures ParseInt(hourText).None? ==> r == ("NaN", "AM")
    ensures ParseInt(hourText).Some? ==> r.1 == Meridiem(ParseInt(hourText).value)
  {
    match ParseInt(hourText)
    case None => ("NaN", "AM")
    case Some(h) => (IntString(Hour12(h)), Meridiem(h))
  }

  /** A time text followed by " " and a two-letter suffix ends with them. */
  lemma EndsWith(front: string, meridiem: string)
    requires |meridiem| == 2
    ensures var s := front + " " + meridiem; |s| >= 3 && s[|s| - 3..] == " " + meridiem
  {
    var s := front + " " + meridiem;
    assert s[|s| - 3..] == [s[|s| - 3], s[|s| - 2], s[|s| - 1]];
  }

  /** Two digits for an hour, as a time input writes it. */
  function TwoDigits(h: nat): (r: string)
    requires h < 100
    ensures |r| == 2 && IsDigit(r[0]) && IsDigit(r[1]) && DigitsValue(r) == h
  {
    var r := [Digit(h / 10), Digit(h % 10)];
    assert r[..1] == [r[0]] && r[..1][..0] == [];
    assert DigitsValue(r[..1]) == h / 10;
    assert DigitsValue(r) == DigitsValue(r[..1]) * 10 + h % 10;
    r
  }

  /** A time as a time input gives it ("HH:MM") shows the hour on a
      12-hour clock and the minutes unchanged. */
  lemma FormatClockTime(h: nat, minutes: string)
    requires h <= 23 && ':' !in minutes
    ensures FormatTime(TwoDigits(h) + ":" + minutes) == DecimalString(Hour12(h)) + ":" + minutes + " " + Meridiem(h)
  {
    var hh := TwoDigits(h);
    assert ':' !in hh;
    SplitJoin([hh, minutes], ':');
    assert Join([hh, minutes], [':']) == hh + ":" + minutes;
    ParseIntDigits(hh);
  }

  // ---------------------------------------------------------------------
  // Status

  datatype Status = Past | Today | Upcoming

  function StatusName(s: Status): string
  {
    match s
    case Past => "past"
    case Today => "today"
    case Upcoming => "upcoming"
  }

  /** `getEventStatus` at time `now`: past if it is before now, else today
      if it falls on today's date, else upcoming. An invalid date is never
      before now. */
  function GetEventStatus(cal: Calendar, e: Event, now: int): (r: Status)
    ensures r == Past <==> DateTime(cal, e).Some? && DateTime(cal, e).value < now
    ensures r == Today <==> r != Past && cal.dayString(DateTime(cal, e)) == cal.dayString(Some(now))
  {
    var t := DateTime(cal, e);
    if t.Some? && t.value < now then Past
    else if cal.dayString(t) == cal.dayString(Some(now)) then Today
    else Upcoming
  }

  /** A calendar in which the text of an invalid date (JavaScript's
      "Invalid Date") differs from the text of every valid day. */
  ghost predicate InvalidDayDistinct(cal: Calendar)
  {
    forall t :: cal.dayString(None) != cal.dayString(Some(t))
  }

  /** With such a calendar, an event whose date cannot be parsed is never
      past and never today: it is always shown as upcoming. */
  lemma InvalidDateIsUpcoming(cal: Calendar, e: Event, now: int)
    requires InvalidDayDistinct(cal) && DateTime(cal, e).None?
    ensures GetEventStatus(cal, e, now) == Upcoming
  {
    assert cal.dayString(DateTime(cal, e)) != cal.dayString(Some(now));
  }

  /** An event happening right now is today's; one after now is never past. */
  lemma EventNowIsToday(cal: Calendar, e: Event, now: int)
    ensures DateTime(cal, e) == Some(now) ==> GetEventStatus(cal, e, now) == Today
    ensures DateTime(cal, e).Some? && DateTime(cal, e).value >= now ==> GetEventStatus(cal, e, now) != Past
  {
  }

  function HasStatus(cal: Calendar, now: int, s: Status): Event -> bool
  {
    (e: Event) => GetEventStatus(cal, e, now) == s
  }

  /** Every event has exactly one status, so the three status filters
      together show every event once. */
  lemma {:induction false} StatusPartition(cal: Calendar, now: int, events: seq<Event>)
    ensures CountWhere(events, HasStatus(cal, now, Past))
          + CountWhere(events, HasStatus(cal, now, Today))
          + CountWhere(events, HasStatus(cal, now, Upcoming)) == |events|
    decreases |events|
  {
    if |events| > 0 {
      StatusPartition(cal, now, events[1..]);
    }
  }

  // ---------------------------------------------------------------------
  // The list shown

  /** The filter and sort controls; an empty string means "any". */
  datatype Controls = Controls(date: string, status: string, sortOrder: string)

  function OnDate(cal: Calendar, date: string): Event -> bool
  {
    (e: Event) => cal.dayString(cal.parse(e.date)) == cal.dayString(cal.parse(date))
  }

  function StatusIs(cal: Calendar, now: int, status: string): Event -> bool
  {
    (e: Event) => StatusName(GetEventStatus(cal, e, now)) == status
  }

  /** An event passes the date and the status filter (an empty control passes everything). */
  function Matches(cal: Calendar, now: int, c: Controls): Event -> bool
  {
    (e: Event) => (c.date != "" ==> OnDate(cal, c.date)(e)) && (c.status != "" ==> StatusIs(cal, now, c.status)(e))
  }

  /** The events the date and status filters keep, in their original order
      (filtering by date and then by status keeps the events that pass both). */
  function Selected(cal: Calendar, now: int, events: seq<Event>, c: Controls): (r: seq<Event>)
    ensures IsSubsequence(r, events)
    ensures forall i :: 0 <= i < |r| ==> r[i] in events && Matches(cal, now, c)(r[i])
    ensures forall i :: 0 <= i < |events| && Matches(cal, now, c)(events[i]) ==>
      multiset(r)[events[i]] == multiset(events)[events[i]]
    ensures c.date == "" && c.status == "" ==> r == events
    ensures AllKeyed(events, Oldest(cal)) ==> AllKeyed(r, Oldest(cal))
  {
    var r := Filter(events, Matches(cal, now, c));
    FilterCounts(events, Matches(cal, now, c));
    assert c.date == "" && c.status == "" ==> r == events by {
      if c.date == "" && c.status == "" { FilterAllPass(events, Matches(cal, now, c)); }
    }
    r
  }

  /** The sort key of "oldest first". */
  function Oldest(cal: Calendar): Event -> Option<int>
  {
    (e: Event) => DateTime(cal, e)
  }

  /** The sort key of "latest first": `b - a` orders by the negated time. */
  function Latest(cal: Calendar): Event -> Option<int>
  {
    (e: Event) => match DateTime(cal, e) case None => None case Some(t) => Some(-t)
  }

  /** Every event has a valid date, and the dates never decrease. */
  predicate Ascending(cal: Calendar, s: seq<Event>)
  {
    && AllKeyed(s, Oldest(cal))
    && forall i, j :: 0 <= i < j < |s| ==> DateTime(cal, s[i]).value <= DateTime(cal, s[j]).value
  }

  /** Every event has a valid date, and the dates never increase. */
  predicate Descending(cal: Calendar, s: seq<Event>)
  {
    && AllKeyed(s, Oldest(cal))
    && forall i, j :: 0 <= i < j < |s| ==> DateTime(cal, s[i]).value >= DateTime(cal, s[j]).value
  }

  /** "oldest first": a stable sort by date and time, ascending when every
      event has a valid date. */
  function SortOldest(cal: Calendar, events: seq<Event>): (r: seq<Event>)
    ensures multiset(r) == multiset(events)
    ensures AllKeyed(events, Oldest(cal)) ==> Ascending(cal, r)
  {
    var r := SortBy(events, Oldest(cal));
    assert AllKeyed(events, Oldest(cal)) ==> AllKeyed(r, Oldest(cal)) by {
      if AllKeyed(events, Oldest(cal)) { KeyedPermutation(events, r, Oldest(cal)); }
    }
    r
  }

  /** "latest first": a stable sort by date and time, descending when every
      event has a valid date. */
  function SortLatest(cal: Calendar, events: seq<Event>): (r: seq<Event>)
    ensures multiset(r) == multiset(events)
    ensures AllKeyed(events, Oldest(cal)) ==> Descending(cal, r)
  {
    var r := SortBy(events, Latest(cal));
    assert AllKeyed(events, Oldest(cal)) ==> Descending(cal, r) by {
      if AllKeyed(events, Oldest(cal)) {
        assert AllKeyed(events, Latest(cal));
        KeyedPermutation(events, r, Latest(cal));
        KeyedPermutation(events, r, Oldest(cal));
        forall i, j | 0 <= i < j < |r| ensures DateTime(cal, r[i]).value >= DateTime(cal, r[j]).value {
          assert Latest(cal)(r[i]).value <= Latest(cal)(r[j]).value;
        }
      }
    }
    r
  }

  /** The events shown: none without an events list; otherwise the
      selected events, sorted by date and time when an order is chosen. */
  function ShownEvents(cal: Calendar, now: int, events: Option<seq<Event>>, c: Controls): (r: seq<Event>)
    ensures events.None? ==> r == []
    ensures events.Some? ==> multiset(r) == multiset(Selected(cal, now, events.value, c))
    ensures events.Some? && c.sortOrder != "oldest" && c.sortOrder != "latest" ==> r == Selected(cal, now, events.value, c)
    ensures events.Some? && c.date == "" && c.status == "" && c.sortOrder != "oldest" && c.sortOrder != "latest" ==> r == events.value
    ensures events.Some? && c.sortOrder == "oldest" && AllKeyed(events.value, Oldest(cal)) ==> Ascending(cal, r)
    ensures events.Some? && c.sortOrder == "latest" && AllKeyed(events.value, Oldest(cal)) ==> Descending(cal, r)
  {
    match events
    case None => []
    case Some(es) =>
      var sel := Selected(cal, now, es, c);
      if c.sortOrder == "oldest" then SortOldest(cal, sel)
      else if c.sortOrder == "latest" then SortLatest(cal, sel)
      else sel
  }

  /** A list already in date-time order is shown unchanged by "oldest first". */
  lemma OldestKeepsSortedList(cal: Calendar, now: int, events: seq<Event>)
    requires AllKeyed(events, Oldest(cal)) && SortedBy(events, Oldest(cal))
    ensures ShownEvents(cal, now, Some(events), Controls("", "", "oldest")) == events
  {
    SortBySorted(events, Oldest(cal));
    assert Selected(cal, now, events, Controls("", "", "oldest")) == events;
  }
}
