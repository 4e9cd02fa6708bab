/**
 * The event-schedule component: per-session normalisation of the speaker
 * and abstract fields, the default-day scan, the default-tab marker, and the
 * structure of the rendered schedule (which rows, in which order, under which
 * anchor ids). Markup strings are not modelled.
 */
module EventTable {
  import opened Wrappers
  import opened DateValue
  import opened Slugs

  /** A session field that the data may give as a string, as an array of strings, or not at all. */
  datatype JsField = Absent | Str(s: string) | Arr(items: seq<string>)

  datatype Session = Session(speaker: JsField, title: string, blurb: Option<string>, abstractText: JsField)

  /**
   * A schedule day. `date` is the start as a time value (milliseconds since
   * the epoch) and `duration` is in minutes.
   */
  datatype Day = Day(title: string, date: int, duration: int, sessions: seq<Session>, videoId: Option<string>)

  // ---------------------------------------------------------------------
  // Normalisation of a session's fields
  // ---------------------------------------------------------------------

  /** The author ids passed on for `speaker`: a string becomes a one-element list, anything else passes through. */
  function Authors(speaker: JsField): Option<seq<string>> {
    match speaker
    case Str(s) => Some([s])
    case Arr(items) => Some(items)
    case Absent => None
  }

  /** JavaScript truthiness of the field: absent and the empty string are falsy, arrays are truthy. */
  predicate Truthy(f: JsField) {
    match f
    case Absent => false
    case Str(s) => s != ""
    case Arr(_) => true
  }

  /** The paragraphs of `abstract`: a falsy value gives none, a string gives one, an array passes through. */
  function AbstractParts(abstractText: JsField): seq<string> {
    if !Truthy(abstractText) then []
    else match abstractText
      case Str(s) => [s]
      case Arr(items) => items
  }

  /** A single-string speaker and the one-element array holding it give the same authors. */
  lemma SpeakerStringAsSingleton(s: string)
    ensures Authors(Str(s)) == Authors(Arr([s])) == Some([s])
  {
  }

  /**
   * Authors are present exactly when a speaker is given; an array passes
   * through unchanged, so normalising the normalised list changes nothing.
   */
  lemma AuthorsIdempotent(speaker: JsField)
    ensures Authors(speaker).Some? <==> speaker != Absent
    ensures speaker.Arr? ==> Authors(speaker) == Some(speaker.items)
    ensures Authors(speaker).Some? ==> Authors(Arr(Authors(speaker).value)) == Authors(speaker)
  {
  }

  /**
   * The paragraphs of an abstract: none for a falsy value, the string itself
   * for a non-empty string, and the elements of an array; and normalising the
   * normalised list again changes nothing.
   */
  lemma AbstractPartsCount(abstractText: JsField)
    ensures abstractText.Arr? ==> AbstractParts(abstractText) == abstractText.items
    ensures abstractText.Str? ==> |AbstractParts(abstractText)| == (if abstractText.s == "" then 0 else 1)
    ensures abstractText.Str? && abstractText.s != "" ==> AbstractParts(abstractText) == [abstractText.s]
    ensures abstractText.Absent? ==> AbstractParts(abstractText) == []
    ensures AbstractParts(Arr(AbstractParts(abstractText))) == AbstractParts(abstractText)
  {
  }

  // ---------------------------------------------------------------------
  // The default day
  // ---------------------------------------------------------------------

  /**
   * The end time computed the way the comment above the scan describes it:
   * `endTime.setMinutes(endTime.getMinutes() + duration)`.
   */
  function EndTime(date: int, duration: int): (t: Num)
    ensures t == Finite(date + duration * MsPerMinute)
  {
    var endTime := Finite(date);
    SetMinutesAdvances(date, duration);
    SetMinutes(endTime, Plus(GetMinutes(endTime), Finite(duration)))
  }

  /**
   * The end time as line 38 computes it: the inner `setMinutes()` has no
   * argument, so it sets the date to NaN and returns NaN; the outer call
   * then works on a NaN date with a NaN argument.
   */
  function EndTimeAsWritten(date: int, duration: int): (t: Num)
    ensures t == NaN
  {
    var inner := SetMinutes(Finite(date), NaN);
    SetMinutes(inner, Plus(inner, Finite(duration)))
  }

  /** `now < endTime` for the day, with the end time computed by `endOf`. */
  predicate EndsAfter(endOf: (int, int) -> Num, d: Day, now: int) {
    LessThan(Finite(now), endOf(d.date, d.duration))
  }

  /** The first index of a day that ends after `now`, if any. */
  function FirstDayEndingAfter(days: seq<Day>, now: int, endOf: (int, int) -> Num): (r: Option<nat>)
    ensures r.None? <==> forall i :: 0 <= i < |days| ==> !EndsAfter(endOf, days[i], now)
    ensures r.Some? ==> r.value < |days| && EndsAfter(endOf, days[r.value], now)
    ensures r.Some? ==> forall j :: 0 <= j < r.value ==> !EndsAfter(endOf, days[j], now)
  {
    if days == [] then None
    else if EndsAfter(endOf, days[0], now) then Some(0)
    else match FirstDayEndingAfter(days[1..], now, endOf)
      case None => None
      case Some(i) => Some(i + 1)
  }

  /**
   * The default schedule day: the first day that ends after `now`, or 0
   * when there is none (in particular when `days` is empty).
   */
  function DefaultDay(days: seq<Day>, now: int, endOf: (int, int) -> Num): (d: nat)
    ensures days == [] ==> d == 0
    ensures days != [] ==> d < |days|
    ensures (forall i :: 0 <= i < |days| ==> !EndsAfter(endOf, days[i], now)) ==> d == 0
    ensures (exists i :: 0 <= i < |days| && EndsAfter(endOf, days[i], now)) ==>
      EndsAfter(endOf, days[d], now) && forall j :: 0 <= j < d ==> !EndsAfter(endOf, days[j], now)
  {
    match FirstDayEndingAfter(days, now, endOf)
    case None => 0
    case Some(i) => i
  }

  /** The scan at the top of the component: stop at the first day that ends after `now`. */
  method SelectDefaultDay(days: seq<Day>, now: int, endOf: (int, int) -> Num) returns (defaultScheduleDay: nat)
    ensures defaultScheduleDay == DefaultDay(days, now, endOf)
  {
    defaultScheduleDay := 0;
    var i := 0;
    while i < |days|
      invariant 0 <= i <= |days|
      invariant defaultScheduleDay == 0
      invariant forall j :: 0 <= j < i ==> !EndsAfter(endOf, days[j], now)
    {
      var endTime := endOf(days[i].date, days[i].duration);
      if LessThan(Finite(now), endTime) {
        defaultScheduleDay := i;
        break;
      }
      i := i + 1;
    }
  }

  /** With the end time as written no day ever ends after `now`, so the scan always yields day 0. */
  lemma AsWrittenAlwaysFirstDay(days: seq<Day>, now: int)
    ensures DefaultDay(days, now, EndTimeAsWritten) == 0
  {
  }

  /**
   * A day that ended an hour ago and one that starts in an hour: the
   * intended scan picks the second, the code as written picks the first.
   */
  lemma LaterDayExample(now: int, sessions: seq<Session>)
    ensures var days := [Day("past", now - 120 * MsPerMinute, 60, sessions, None),
                         Day("next", now + 60 * MsPerMinute, 60, sessions, None)];
      && DefaultDay(days, now, EndTime) == 1
      && DefaultDay(days, now, EndTimeAsWritten) == 0
  {
    var days := [Day("past", now - 120 * MsPerMinute, 60, sessions, None),
                 Day("next", now + 60 * MsPerMinute, 60, sessions, None)];
    assert !EndsAfter(EndTime, days[0], now);
    assert EndsAfter(EndTime, days[1], now);
  }

  // ---------------------------------------------------------------------
  // The default-tab marker
  // ---------------------------------------------------------------------

  const DefaultClass: string := "w-tabs-default"

  /** The class attribute of day `index`'s tab. */
  function DayClass(index: nat, defaultScheduleDay: nat): string {
    if index == defaultScheduleDay then DefaultClass else ""
  }

  /** Exactly one tab, the default day's, carries the marker when there are days, and none otherwise. */
  lemma DefaultMarkerUnique(days: seq<Day>, now: int, endOf: (int, int) -> Num)
    ensures var d := DefaultDay(days, now, endOf);
      (set i | 0 <= i < |days| && DayClass(i, d) == DefaultClass) == (if days == [] then {} else {d})
  {
    var d := DefaultDay(days, now, endOf);
    assert DefaultClass != "";
    var marked := set i | 0 <= i < |days| && DayClass(i, d) == DefaultClass;
    if days != [] {
      assert d in marked;
    }
  }

  // ---------------------------------------------------------------------
  // The rendered structure
  // ---------------------------------------------------------------------

  /** One schedule row: its anchor id and what the row shows. */
  datatype SessionRow = SessionRow(id: string, authors: Option<seq<string>>, title: string, blurb: string, paragraphs: seq<string>)

  /** One day's tab: its data-label, class attribute, start and duration of the header, and the rows. */
  datatype DayTab = DayTab(dataLabel: string, cls: string, date: int, duration: int, rows: seq<SessionRow>)

  /** One carousel entry: its index, the video whose thumbnail it shows (if any), and its label. */
  datatype CarouselDay = CarouselDay(index: nat, preview: Option<string>, description: string)

  /** The component's output: the carousel when it is shown, then the tabs in day order. */
  datatype Schedule = Schedule(carousel: Option<seq<CarouselDay>>, tabs: seq<DayTab>)

  /** The row for `session` under anchor `id`, with its fields normalised and `blurb` defaulting to "". */
  function RowFor(session: Session, id: string): SessionRow {
    SessionRow(id, Authors(session.speaker), session.title, session.blurb.GetOr(""), AbstractParts(session.abstractText))
  }

  /** A tab made for `day`, the `index`-th day, when the default day is `defaultScheduleDay`. */
  predicate TabFor(tab: DayTab, day: Day, index: nat, defaultScheduleDay: nat) {
    && tab.dataLabel == day.title
    && tab.cls == DayClass(index, defaultScheduleDay)
    && tab.date == day.date
    && tab.duration == day.duration
    && |tab.rows| == |day.sessions|
    && RowsFor(tab.rows, day.sessions)
  }

  /** Each of `rows` is the row of the session at its position. */
  predicate RowsFor(rows: seq<SessionRow>, sessions: seq<Session>) {
    |rows| <= |sessions| && forall k :: 0 <= k < |rows| ==> rows[k] == RowFor(sessions[k], rows[k].id)
  }

  /** Each of `tabs` is the tab of the day at its position. */
  predicate TabsFor(tabs: seq<DayTab>, days: seq<Day>, defaultScheduleDay: nat) {
    |tabs| <= |days| && forall t :: 0 <= t < |tabs| ==> TabFor(tabs[t], days[t], t, defaultScheduleDay)
  }

  lemma RowsForAppend(rows: seq<SessionRow>, row: SessionRow, sessions: seq<Session>)
    requires RowsFor(rows, sessions) && |rows| < |sessions| && row == RowFor(sessions[|rows|], row.id)
    ensures RowsFor(rows + [row], sessions)
  {
  }

  lemma TabsForAppend(tabs: seq<DayTab>, tab: DayTab, days: seq<Day>, defaultScheduleDay: nat)
    requires TabsFor(tabs, days, defaultScheduleDay) && |tabs| < |days|
    requires TabFor(tab, days[|tabs|], |tabs|, defaultScheduleDay)
    ensures TabsFor(tabs + [tab], days, defaultScheduleDay)
  {
  }

  function Titles(sessions: seq<Session>): (titles: seq<string>)
    ensures |titles| == |sessions|
    ensures forall k :: 0 <= k < |sessions| ==> titles[k] == sessions[k].title
  {
    if sessions == [] then [] else Titles(sessions[..|sessions| - 1]) + [sessions[|sessions| - 1].title]
  }

  /** Every session title, day by day, in the order the rows are rendered. */
  function AllTitles(days: seq<Day>): seq<string> {
    if days == [] then [] else AllTitles(days[..|days| - 1]) + Titles(days[|days| - 1].sessions)
  }

  function RowIds(rows: seq<SessionRow>): (ids: seq<string>)
    ensures |ids| == |rows|
    ensures forall k :: 0 <= k < |rows| ==> ids[k] == rows[k].id
  {
    if rows == [] then [] else RowIds(rows[..|rows| - 1]) + [rows[|rows| - 1].id]
  }

  /** Every row id of the schedule, tab by tab. */
  function TabIds(tabs: seq<DayTab>): seq<string> {
    if tabs == [] then [] else TabIds(tabs[..|tabs| - 1]) + RowIds(tabs[|tabs| - 1].rows)
  }

  /** The thumbnail shown for a day: only a non-empty video id is truthy. */
  function Preview(videoId: Option<string>): Option<string> {
    if videoId.Some? && videoId.value != "" then videoId else None
  }

  /** One carousel entry per day, in day order. */
  function CarouselDays(days: seq<Day>): (entries: seq<CarouselDay>)
    ensures |entries| == |days|
  {
    seq(|days|, i requires 0 <= i < |days| => CarouselDay(i, Preview(days[i].videoId), days[i].title))
  }

  /** `renderSession`: normalise the fields and take an id for the title from the registry. */
  method RenderSession(reg: SlugRegistry, session: Session) returns (row: SessionRow)
    modifies reg`slugs
    ensures row == RowFor(session, FirstFree(old(reg.slugs).Keys, reg.baseOf(session.title)))
    ensures reg.slugs == old(reg.slugs)[row.id := session.title]
  {
    var authors := Authors(session.speaker);
    var id := reg.SlugForTitle(session.title);
    var paragraphs := AbstractParts(session.abstractText);
    row := SessionRow(id, authors, session.title, session.blurb.GetOr(""), paragraphs);
  }

  /** `renderDay`: the day's tab, with one row per session in order. */
  method RenderDay(reg: SlugRegistry, day: Day, index: nat, defaultScheduleDay: nat) returns (tab: DayTab)
    modifies reg`slugs
    ensures TabFor(tab, day, index, defaultScheduleDay)
    ensures RowIds(tab.rows) == IssueAll(reg.baseOf, old(reg.slugs), Titles(day.sessions)).ids
    ensures reg.slugs == IssueAll(reg.baseOf, old(reg.slugs), Titles(day.sessions)).table
  {
    ghost var m0 := reg.slugs;
    var rows: seq<SessionRow> := [];
    var j := 0;
    while j < |day.sessions|
      invariant 0 <= j <= |day.sessions|
      invariant |rows| == j
      invariant RowsFor(rows, day.sessions)
      invariant RowIds(rows) == IssueAll(reg.baseOf, m0, Titles(day.sessions[..j])).ids
      invariant reg.slugs == IssueAll(reg.baseOf, m0, Titles(day.sessions[..j])).table
    {
      var row := RenderSession(reg, day.sessions[j]);
      assert Titles(day.sessions[..j + 1]) == Titles(day.sessions[..j]) + [day.sessions[j].title] by {
        assert day.sessions[..j + 1][..j] == day.sessions[..j];
      }
      IssueAllSnoc(reg.baseOf, m0, Titles(day.sessions[..j]), day.sessions[j].title);
      assert RowIds(rows + [row]) == RowIds(rows) + [row.id] by {
        assert (rows + [row])[..|rows|] == rows;
      }
      RowsForAppend(rows, row, day.sessions);
      rows := rows + [row];
      j := j + 1;
    }
    assert day.sessions[..j] == day.sessions;
    tab := DayTab(day.title, DayClass(index, defaultScheduleDay), day.date, day.duration, rows);
  }

  /** The ids issued day by day: each day's titles from the table the previous days leave. */
  function IssueDays(baseOf: string -> string, m: map<string, string>, days: seq<Day>): Issued {
    if days == [] then Issued([], m)
    else
      var before := IssueDays(baseOf, m, days[..|days| - 1]);
      var here := IssueAll(baseOf, before.table, Titles(days[|days| - 1].sessions));
      Issued(before.ids + here.ids, here.table)
  }

  /** Issuing day by day is issuing for all the titles at once. */
  lemma {:induction false} IssueDaysAll(baseOf: string -> string, m: map<string, string>, days: seq<Day>)
    ensures IssueDays(baseOf, m, days) == IssueAll(baseOf, m, AllTitles(days))
  {
    if days != [] {
      var init := days[..|days| - 1];
      IssueDaysAll(baseOf, m, init);
      IssueAllAppend(baseOf, m, AllTitles(init), Titles(days[|days| - 1].sessions));
    }
  }

  lemma TabIdsAppend(tabs: seq<DayTab>, tab: DayTab)
    ensures TabIds(tabs + [tab]) == TabIds(tabs) + RowIds(tab.rows)
  {
    assert (tabs + [tab])[..|tabs|] == tabs;
  }

  /** `days.map(renderDay)`: one tab per day, in order, all drawing ids from the same registry. */
  method RenderDays(reg: SlugRegistry, days: seq<Day>, defaultScheduleDay: nat) returns (tabs: seq<DayTab>)
    modifies reg`slugs
    ensures |tabs| == |days|
    ensures forall i :: 0 <= i < |days| ==> TabFor(tabs[i], days[i], i, defaultScheduleDay)
    ensures TabIds(tabs) == IssueAll(reg.baseOf, old(reg.slugs), AllTitles(days)).ids
    ensures reg.slugs == IssueAll(reg.baseOf, old(reg.slugs), AllTitles(days)).table
  {
    tabs := [];
    var i := 0;
    while i < |days|
      invariant 0 <= i <= |days|
      invariant |tabs| == i
      invariant TabsFor(tabs, days, defaultScheduleDay)
      invariant TabIds(tabs) == IssueDays(reg.baseOf, old(reg.slugs), days[..i]).ids
      invariant reg.slugs == IssueDays(reg.baseOf, old(reg.slugs), days[..i]).table
    {
      var tab := RenderDay(reg, days[i], i, defaultScheduleDay);
      assert days[..i + 1][..i] == days[..i];
      TabIdsAppend(tabs, tab);
      TabsForAppend(tabs, tab, days, defaultScheduleDay);
      tabs := tabs + [tab];
      i := i + 1;
    }
    assert days[..i] == days;
    IssueDaysAll(reg.baseOf, old(reg.slugs), days);
  }

  /**
   * The component: pick the default day, render every day's tab with ids
   * from a fresh render-scoped registry, and the carousel when asked for.
   */
  method Render(days: seq<Day>, now: int, showCarousel: bool, baseOf: string -> string) returns (out: Schedule)
    ensures |out.tabs| == |days|
    ensures forall i :: 0 <= i < |days| ==> TabFor(out.tabs[i], days[i], i, DefaultDay(days, now, EndTime))
    ensures forall i :: 0 <= i < |days| ==> (out.tabs[i].cls == DefaultClass <==> i == DefaultDay(days, now, EndTime))
    ensures TabIds(out.tabs) == IssueAll(baseOf, map[], AllTitles(days)).ids
    ensures forall a, b :: 0 <= a < b < |TabIds(out.tabs)| ==> TabIds(out.tabs)[a] != TabIds(out.tabs)[b]
    ensures out.carousel.Some? <==> showCarousel
    ensures showCarousel ==> |out.carousel.value| == |days|
    ensures showCarousel ==> forall i :: 0 <= i < |days| ==>
      out.carousel.value[i] == CarouselDay(i, Preview(days[i].videoId), days[i].title)
  {
    var defaultScheduleDay := SelectDefaultDay(days, now, EndTime);
    var reg := new SlugRegistry(baseOf);
    var tabs := RenderDays(reg, days, defaultScheduleDay);
    IssueAllDistinct(baseOf, map[], AllTitles(days));
    assert DefaultClass != "";
    var carousel := if showCarousel then Some(CarouselDays(days)) else None;
    out := Schedule(carousel, tabs);
  }
}
