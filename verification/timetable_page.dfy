/** The client side of the timetable: the page state (shown month, selected
    day, form fields, filters), the per-day buckets of loaded events, month
    navigation, the request body `addEvent` sends and the tag list the day
    view renders. Times are integer minutes in local time and days are day
    numbers (see `Calendar`). */
module TimetablePage {
  import opened Seqs
  import opened Text
  import opened Js
  import opened TagJson
  import opened TimetableRoute
  import opened Calendar

  /** The page's state; `month` is always the first day of a month. */
  datatype PageState = PageState(
    month: int,
    selectedDay: Option<int>,
    title: string,
    tags: string,
    visibility: Visibility,
    tagFilter: string,
    view: string)

  /** The page as first rendered on day `today`. */
  function InitialState(today: int): (s: PageState)
    ensures s.month <= today && SameMonth(s.month, today) && Civil(s.month).day == 1
    ensures s.selectedDay.None? && s.title == "" && s.tags == ""
    ensures s.visibility == Personal && s.tagFilter == "" && s.view == "all"
  {
    PageState(StartOfMonth(today), None, "", "", Personal, "", "all")
  }

  // ---------------------------------------------------------------------
  // Buckets by day

  /** The bucket key of an event: the `ymd` of its start day. */
  function DayKey(e: Event): string {
    Ymd(DayOf(e.startAt))
  }

  /** `eventsByDay`: every event appended, in order, to the bucket of its
      start day. */
  function EventsByDay(events: seq<Event>): map<string, seq<Event>> {
    GroupBy(DayKey, events)
  }

  function OnDate(d: int): Event -> bool {
    (e: Event) => DayOf(e.startAt) == d
  }

  /** Because distinct days have distinct keys, the events keyed by a day's
      key are exactly the events starting on that day. */
  lemma {:induction false} OnDayOfYmd(events: seq<Event>, d: int)
    ensures WithKey(DayKey, events, Ymd(d)) == Filter(OnDate(d), events)
    decreases |events|
  {
    if |events| > 0 {
      OnDayOfYmd(events[1..], d);
      var e := events[0];
      if DayKey(e) == Ymd(d) {
        YmdInjective(DayOf(e.startAt), d);
      }
    }
  }

  /** `selectedEvents`: the bucket of the selected day, or nothing. */
  function SelectedEvents(s: PageState, events: seq<Event>): seq<Event> {
    if s.selectedDay.None? then [] else Bucket(EventsByDay(events), Ymd(s.selectedDay.value))
  }

  /** The selected events are the loaded events starting on the selected
      day, in load order. */
  lemma SelectedEventsOfDay(s: PageState, events: seq<Event>)
    requires s.selectedDay.Some?
    ensures SelectedEvents(s, events) == Filter(OnDate(s.selectedDay.value), events)
  {
    OnDayOfYmd(events, s.selectedDay.value);
  }

  function DayKeys(events: seq<Event>): (r: seq<string>)
    ensures |r| == |events| && forall i :: 0 <= i < |r| ==> r[i] == DayKey(events[i])
  {
    seq(|events|, i requires 0 <= i < |events| => DayKey(events[i]))
  }

  /** Every event lands in exactly one bucket: summed over the distinct day
      keys, the bucket sizes equal the number of events. */
  lemma EventsByDaySizes(events: seq<Event>)
    ensures GroupSizes(EventsByDay(events), Dedup(DayKeys(events))) == |events|
  {
    var keys := Dedup(DayKeys(events));
    forall i | 0 <= i < |events| ensures DayKey(events[i]) in keys {
      assert DayKeys(events)[i] == DayKey(events[i]);
    }
    GroupSizesCover(DayKey, events, keys);
  }

  // ---------------------------------------------------------------------
  // Month navigation

  /** `prevMonth`: show the previous month and clear the selection. */
  function GoPrevMonth(s: PageState): (r: PageState)
    ensures r == s.(month := r.month, selectedDay := None)
    ensures Civil(r.month) == MonthBefore(Civil(s.month))
    ensures r.month + DaysInMonth(Civil(r.month).year, Civil(r.month).month) == StartOfMonth(s.month)
  {
    s.(month := PrevMonth(s.month), selectedDay := None)
  }

  /** `nextMonth`: show the next month and clear the selection. */
  function GoNextMonth(s: PageState): (r: PageState)
    ensures r == s.(month := r.month, selectedDay := None)
    ensures Civil(r.month) == MonthAfter(Civil(s.month))
    ensures r.month == StartOfMonth(s.month) + DaysInMonth(Civil(s.month).year, Civil(s.month).month)
  {
    s.(month := NextMonth(s.month), selectedDay := None)
  }

  /** Prev then Next, or Next then Prev, returns to the shown month with
      nothing selected. */
  lemma NavigateBackAndForth(s: PageState)
    requires s.month == StartOfMonth(s.month)
    ensures GoNextMonth(GoPrevMonth(s)) == s.(selectedDay := None)
    ensures GoPrevMonth(GoNextMonth(s)) == s.(selectedDay := None)
  {
    NextOfPrevMonth(s.month);
    PrevOfNextMonth(s.month);
  }

  // ---------------------------------------------------------------------
  // Adding an event

  function VisibilityText(v: Visibility): string {
    match v
    case Personal => "personal"
    case Public => "public"
  }

  function StrItems(xs: seq<string>): (r: seq<JsValue>)
    ensures |r| == |xs| && forall i :: 0 <= i < |r| ==> r[i] == Str(xs[i])
  {
    seq(|xs|, i requires 0 <= i < |xs| => Str(xs[i]))
  }

  /** Noon of day `d`, in minutes. */
  function NoonOf(d: int): int {
    d * MinutesPerDay + 12 * 60
  }

  /** `body` is an object carrying exactly these values under the five
      keys `addEvent` fills. */
  predicate PostsFields(body: JsValue, title: string, startAt: string, endAt: string,
                        tags: seq<string>, visibility: Visibility) {
    && body.Obj?
    && Get(body, "title") == Some(Str(title))
    && Get(body, "startAt") == Some(Str(startAt))
    && Get(body, "endAt") == Some(Str(endAt))
    && Get(body, "tags") == Some(Arr(StrItems(tags)))
    && Get(body, "visibility") == Some(Str(VisibilityText(visibility)))
    && Get(body, "description") == Some(Undefined)
    && Get(body, "location") == Some(Undefined)
  }

  /** The JSON object `addEvent` posts. */
  function AddEventObject(title: string, startAt: string, endAt: string, tags: seq<string>,
                          visibility: Visibility): (r: JsValue)
    ensures PostsFields(r, title, startAt, endAt, tags, visibility)
  {
    Obj(map[
      "title" := Str(title),
      "startAt" := Str(startAt),
      "endAt" := Str(endAt),
      "tags" := Arr(StrItems(tags)),
      "visibility" := Str(VisibilityText(visibility))])
  }

  /** `addEvent`: the JSON body posted for the selected day, `None` when no
      day is selected: a noon-to-one window on that day, the form's title and
      visibility, and the form's tags split on commas, trimmed and with
      empty pieces dropped. `iso` is `toISOString`. */
  function AddEventBody(s: PageState, iso: int -> string): (r: Option<JsValue>)
    ensures r.None? <==> s.selectedDay.None?
    ensures r.Some? ==>
      && DayOf(NoonOf(s.selectedDay.value)) == s.selectedDay.value
      && PostsFields(r.value, s.title, iso(NoonOf(s.selectedDay.value)), iso(NoonOf(s.selectedDay.value) + 60),
                     ParseTagCsv(s.tags), s.visibility)
  {
    if s.selectedDay.None? then None
    else
      var start := NoonOf(s.selectedDay.value);
      var end := s.selectedDay.value * MinutesPerDay + 13 * 60;
      Some(AddEventObject(s.title, iso(start), iso(end), ParseTagCsv(s.tags), s.visibility))
  }

  lemma CoerceStrItems(xs: seq<string>)
    ensures CoerceTags(Arr(StrItems(xs))) == xs
  {
  }

  lemma TagsCoerce(body: JsValue, tags: seq<string>)
    requires Get(body, "tags") == Some(Arr(StrItems(tags)))
    ensures CoerceTags(Get(body, "tags").value) == tags
  {
    CoerceStrItems(tags);
  }

  /** What the server stores for a body with the fields `addEvent` posts,
      a non-blank title and times that parse. */
  lemma CreateFromFields(body: JsValue, title: string, startAt: string, endAt: string, tags: seq<string>,
                         visibility: Visibility, cookie: Option<string>, users: seq<User>,
                         dateOf: DateOf, newId: string, t: int)
    requires PostsFields(body, title, startAt, endAt, tags, visibility)
    requires SessionUser(cookie, users).Some?
    requires Trim(title) != "" && startAt != "" && endAt != ""
    requires dateOf(Str(startAt)) == Some(t) && dateOf(Str(endAt)) == Some(t + 60)
    ensures var r := CreateEvent(cookie, users, Some(body), dateOf, newId);
      && r.Ok?
      && r.value.startAt == t
      && r.value.endAt == t + 60
      && r.value.ownerId == SessionUser(cookie, users).value.id
      && r.value.title == Trim(title)
      && r.value.visibility == visibility
      && StoredTags(r.value.tags) == Some(JArray(Strings(tags)))
  {
    FieldsRead(body, title, startAt, endAt, tags, visibility);
    CreateEventAccepts(body, title, startAt, endAt, cookie, users, dateOf, newId);
  }

  /** How the route reads a body with the fields `addEvent` posts: no
      conversion throws, the tags coerce back to the list, and the
      visibility text names the visibility. */
  lemma FieldsRead(body: JsValue, title: string, startAt: string, endAt: string, tags: seq<string>,
                   visibility: Visibility)
    requires PostsFields(body, title, startAt, endAt, tags, visibility)
    ensures !StoreThrows(body)
    ensures Prop(body, "startAt") == Str(startAt) && Prop(body, "endAt") == Str(endAt)
    ensures CoerceTags(Prop(body, "tags")) == tags
    ensures Prop(body, "visibility") == Str("public") <==> visibility == Public
  {
    TagsCoerce(body, tags);
    assert forall i :: 0 <= i < |StrItems(tags)| ==> !StringThrows(StrItems(tags)[i]);
  }

  /** What the server stores for the body `addEvent` sends, where `t` is noon
      of the selected day: an hour-long event starting at `t`, on the
      selected day, owned by the session user, with the trimmed title, the
      chosen visibility and the form's trimmed, non-empty tags. */
  lemma AddEventStored(s: PageState, iso: int -> string, body: JsValue, cookie: Option<string>,
                       users: seq<User>, dateOf: DateOf, newId: string, t: int)
    requires AddEventBody(s, iso) == Some(body)
    requires t == NoonOf(s.selectedDay.value)
    requires SessionUser(cookie, users).Some?
    requires Trim(s.title) != ""
    requires iso(t) != "" && iso(t + 60) != ""
    requires dateOf(Str(iso(t))) == Some(t) && dateOf(Str(iso(t + 60))) == Some(t + 60)
    ensures var r := CreateEvent(cookie, users, Some(body), dateOf, newId);
      && r.Ok?
      && r.value.startAt == t && DayOf(r.value.startAt) == s.selectedDay.value
      && r.value.endAt == r.value.startAt + 60
      && r.value.ownerId == SessionUser(cookie, users).value.id
      && r.value.title == Trim(s.title)
      && r.value.visibility == s.visibility
      && StoredTags(r.value.tags) == Some(JArray(Strings(ParseTagCsv(s.tags))))
  {
    CreateFromFields(body, s.title, iso(t), iso(t + 60), ParseTagCsv(s.tags), s.visibility,
                     cookie, users, dateOf, newId, t);
  }

  // ---------------------------------------------------------------------
  // Day view

  /** Whether React can render `t` as a child of `<span>#{t}</span>`: text,
      numbers, booleans and `null` can; an object cannot ("Objects are not
      valid as a React child"), and an array renders as its items. */
  predicate ReactChild(t: Json)
    decreases t
  {
    match t
    case JObject(_) => false
    case JArray(items) => forall i :: 0 <= i < |items| ==> ReactChild(items[i])
    case _ => true
  }

  /** The tags the day view renders for the parse result of the stored tag
      text, as written: a parse failure leaves the list empty, but `null` or
      a non-empty string makes the render throw (`None`), because `.length`
      of `null` and `.map` of a string are not defined. So does an array
      with an item React cannot render. Booleans, numbers and objects have
      no positive `length` (an object's `length` member is not modelled),
      so nothing is rendered. */
  function RenderedTagsAsWritten(parsed: Option<Json>): (r: Option<seq<Json>>)
    ensures r.None? <==> parsed.Some? && (parsed.value.JNull? || (parsed.value.JString? && parsed.value.s != "")
                                          || (parsed.value.JArray? && !ReactChild(parsed.value)))
    ensures r.Some? && |r.value| > 0 ==> parsed == Some(JArray(r.value))
  {
    match parsed
    case None => Some([])
    case Some(JArray(items)) => if ReactChild(JArray(items)) then Some(items) else None
    case Some(JNull) => None
    case Some(JString(t)) => if |t| == 0 then Some([]) else None
    case Some(_) => Some([])
  }

  function DayViewTagsAsWritten(stored: string): Option<seq<Json>> {
    RenderedTagsAsWritten(StoredTags(stored))
  }

  /** Stored tags of `null` crash the as-written day view. */
  lemma DayViewNullCrashes()
    ensures DayViewTagsAsWritten("null") == None
  {
    var s := "null";
    assert s[0] == 'n' && s[1] == 'u' && s[2] == 'l' && s[3] == 'l';
    DecodeNull(s);
    assert StoredTags(s) == Decode(s);
  }

  /** A parsed array holding an object, as from stored `["x",{}]`, makes
      the as-written day view throw inside React. */
  lemma ObjectItemCrashes(x: string, members: seq<(string, Json)>)
    ensures RenderedTagsAsWritten(Some(JArray([JString(x), JObject(members)]))) == None
  {
    assert !ReactChild([JString(x), JObject(members)][1]);
  }

  /** The tag list to render: the items of a parsed array, and an empty list
      for anything else. */
  function RenderedTags(parsed: Option<Json>): (r: seq<Json>)
    ensures |r| > 0 ==> parsed == Some(JArray(r))
    ensures parsed.Some? && parsed.value.JArray? ==> r == parsed.value.items
  {
    match parsed
    case Some(JArray(items)) => items
    case _ => []
  }

  /** The corrected day view tag list. */
  function DayViewTags(stored: string): seq<Json> {
    RenderedTags(StoredTags(stored))
  }

  /** Wherever the as-written render succeeds, it shows the corrected list. */
  lemma RenderedTagsAgree(parsed: Option<Json>)
    requires RenderedTagsAsWritten(parsed).Some?
    ensures RenderedTagsAsWritten(parsed) == Some(RenderedTags(parsed))
  {
  }

  /** The day view shows exactly the tags the server stored. */
  lemma DayViewOfEncoded(xs: seq<string>)
    ensures DayViewTags(Encode(xs)) == Strings(xs)
    ensures DayViewTagsAsWritten(Encode(xs)) == Some(Strings(xs))
  {
    assert ReactChild(JArray(Strings(xs)));
    assert Encode(xs) != "" by {
      assert Encode(xs)[0] == '[';
    }
    DecodeEncode(xs);
  }
}
