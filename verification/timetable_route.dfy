/** The timetable HTTP handlers: `GET` answers a range query over the event
    store, narrowed by visibility or ownership and by a required-tag list;
    `POST` validates a request body and builds the record to insert.
    The store is an in-memory sequence, the acting users are explicit
    parameters, and `new Date(...)` is the parameter `dateOf`. Times are
    integer minutes. */
module TimetableRoute {
  import opened Seqs
  import opened Text
  import opened Js
  import opened TagJson

  type UserId = string

  datatype User = User(id: UserId, username: string)

  datatype Visibility = Personal | Public

  /** A stored event. `tags` holds the JSON text of a string array. */
  datatype Event = Event(
    id: string,
    title: string,
    description: Option<string>,
    location: Option<string>,
    startAt: int,
    endAt: int,
    allDay: bool,
    tags: string,
    visibility: Visibility,
    ownerId: UserId)

  /** What a handler answers: a body with status 200, a 400 or 401 error
      with its message, or an exception escaping the handler (500). */
  datatype Response<T> =
    | Ok(value: T)
    | BadRequest(error: string)
    | Unauthorized(error: string)
    | ServerError

  function Status<T>(r: Response<T>): int {
    match r
    case Ok(_) => 200
    case BadRequest(_) => 400
    case Unauthorized(_) => 401
    case ServerError => 500
  }

  /** The search parameters of a `GET`; `None` for an absent parameter. */
  datatype Query = Query(
    from: Option<string>,
    to: Option<string>,
    tags: Option<string>,
    view: Option<string>)

  /** `new Date(x)`: the time a value denotes, `None` for an invalid date. */
  type DateOf = JsValue -> Option<int>

  // ---------------------------------------------------------------------
  // GET

  function TrimAll(fields: seq<string>): (r: seq<string>)
    ensures |r| == |fields|
    ensures forall i :: 0 <= i < |r| ==> r[i] == Trim(fields[i])
  {
    seq(|fields|, i requires 0 <= i < |fields| => Trim(fields[i]))
  }

  predicate NonEmpty(s: string) {
    |s| > 0
  }

  /** The comma-separated pieces of the `tags` parameter, each trimmed. */
  function CsvFields(csv: string): (r: seq<string>)
    ensures forall i :: 0 <= i < |r| ==> IsTrimmed(r[i]) && ',' !in r[i]
  {
    var pieces := Split(csv, ',');
    var r := TrimAll(pieces);
    forall i | 0 <= i < |r| ensures ',' !in r[i] {
      TrimKeepsOut(pieces[i], ',');
    }
    r
  }

  /** The `tags` parameter split on commas, each piece trimmed, empty pieces
      dropped: the non-empty trimmed pieces, in their order in the text. */
  function ParseTagCsv(csv: string): (r: seq<string>)
    ensures forall i :: 0 <= i < |r| ==> |r[i]| > 0 && IsTrimmed(r[i]) && ',' !in r[i]
    ensures Subseq(r, CsvFields(csv))
    ensures forall f :: f in CsvFields(csv) && f != "" ==> f in r
  {
    var fields := CsvFields(csv);
    FilterIsSubseq(NonEmpty, fields);
    Filter(NonEmpty, fields)
  }

  predicate InWindow(e: Event, from: int, to: int) {
    from <= e.startAt < to
  }

  /** `view=mine` keeps the acting user's own events; any other view keeps
      public events and the acting user's own. */
  predicate VisibleTo(e: Event, user: UserId, view: string) {
    if view == "mine" then e.ownerId == user
    else e.visibility == Public || e.ownerId == user
  }

  predicate Sorted(s: seq<Event>) {
    forall i :: 0 < i < |s| ==> s[i - 1].startAt <= s[i].startAt
  }

  /** Places `e` before the first element that does not start earlier. */
  function InsertByStart(e: Event, s: seq<Event>): (r: seq<Event>)
    ensures multiset(r) == multiset(s) + multiset{e}
    ensures |r| > 0 && (r[0] == e || (|s| > 0 && r[0] == s[0]))
  {
    if |s| == 0 || e.startAt <= s[0].startAt then [e] + s
    else
      var rest := InsertByStart(e, s[1..]);
      assert s == [s[0]] + s[1..];
      [s[0]] + rest
  }

  /** Insertion keeps a sorted sequence sorted. */
  lemma {:induction false} InsertByStartSorted(e: Event, s: seq<Event>)
    requires Sorted(s)
    ensures Sorted(InsertByStart(e, s))
  {
    if |s| > 0 && e.startAt > s[0].startAt {
      var rest := InsertByStart(e, s[1..]);
      InsertByStartSorted(e, s[1..]);
      assert s[0].startAt <= rest[0].startAt;
      var r := [s[0]] + rest;
      assert InsertByStart(e, s) == r;
      assert forall i :: 0 < i < |r| ==> r[i] == rest[i - 1];
    }
  }

  /** `orderBy: { startAt: "asc" }`; events with equal start keep their
      store order. */
  function SortByStart(s: seq<Event>): (r: seq<Event>)
    ensures Sorted(r)
    ensures multiset(r) == multiset(s)
  {
    if |s| == 0 then []
    else
      assert s == [s[0]] + s[1..];
      InsertByStartSorted(s[0], SortByStart(s[1..]));
      InsertByStart(s[0], SortByStart(s[1..]))
  }

  /** The rows the store query returns, in ascending start order: each
      stored row in the window and visible to the user, as many times as it
      is stored. */
  function Candidates(store: seq<Event>, from: int, to: int, user: UserId, view: string): (r: seq<Event>)
    ensures Sorted(r)
    ensures forall e :: e in r <==> e in store && InWindow(e, from, to) && VisibleTo(e, user, view)
    ensures forall e :: multiset(r)[e] == if InWindow(e, from, to) && VisibleTo(e, user, view) then multiset(store)[e] else 0
  {
    var keep := (e: Event) => InWindow(e, from, to) && VisibleTo(e, user, view);
    var matching := Filter(keep, store);
    var r := SortByStart(matching);
    forall e ensures multiset(r)[e] == if keep(e) then multiset(store)[e] else 0 {
      FilterMultiset(keep, store, e);
    }
    assert forall e :: e in r <==> e in matching by {
      forall e ensures e in r <==> e in matching {
        assert e in r <==> e in multiset(r);
      }
    }
    r
  }

  /** The tag list stored in an event, as `JSON.parse(e.tags || "[]")`. */
  function StoredTags(stored: string): Option<Json> {
    Decode(if stored == "" then "[]" else stored)
  }

  /** The stored tags decode to an array that includes every requested tag;
      text that fails to parse, or parses to a non-array, never matches. */
  predicate HasAllTags(stored: string, tags: seq<string>) {
    var parsed := StoredTags(stored);
    parsed.Some? && parsed.value.JArray? &&
    forall t :: t in tags ==> JString(t) in parsed.value.items
  }

  /** The events whose stored tags include all of `tags`; no filtering when
      `tags` is empty. */
  function TagFilter(tags: seq<string>, events: seq<Event>): (r: seq<Event>)
    ensures |tags| == 0 ==> r == events
    ensures Subseq(r, events)
    ensures forall e :: e in r <==> e in events && (|tags| == 0 || HasAllTags(e.tags, tags))
    ensures forall e :: multiset(r)[e] == if |tags| == 0 || HasAllTags(e.tags, tags) then multiset(events)[e] else 0
  {
    if |tags| == 0 then
      SubseqRefl(events);
      events
    else
      var keep := (e: Event) => HasAllTags(e.tags, tags);
      FilterIsSubseq(keep, events);
      forall e ensures multiset(Filter(keep, events))[e] == if keep(e) then multiset(events)[e] else 0 {
        FilterMultiset(keep, events, e);
      }
      Filter(keep, events)
  }

  /** A search parameter that `!param` treats as missing. */
  predicate Missing(p: Option<string>) {
    p.None? || p.value == ""
  }

  /** `url.searchParams.get("view") || "all"`. */
  function ViewOf(q: Query): string {
    if Missing(q.view) then "all" else q.view.value
  }

  /** The tags the `tags` parameter asks for. */
  function RequestedTags(q: Query): seq<string> {
    ParseTagCsv(if q.tags.Some? then q.tags.value else "")
  }

  /** Whether `GET` reports a stored event: it starts in the window, the
      view shows it to the acting user, and it carries every requested tag
      (any event, when no tag is requested). */
  predicate Listed(e: Event, store: seq<Event>, from: int, to: int, user: UserId, view: string, tags: seq<string>) {
    e in store && Shown(e, from, to, user, view, tags)
  }

  /** The conditions of `Listed` apart from being stored. */
  predicate Shown(e: Event, from: int, to: int, user: UserId, view: string, tags: seq<string>) {
    && InWindow(e, from, to)
    && VisibleTo(e, user, view)
    && (tags == [] || HasAllTags(e.tags, tags))
  }

  /** The events `GET` reports once its parameters are read: the store
      query narrowed by the tag filter, in start order. */
  function Select(store: seq<Event>, from: int, to: int, user: UserId, view: string, tags: seq<string>): (r: seq<Event>)
    ensures Sorted(r)
    ensures forall e :: e in r <==> Listed(e, store, from, to, user, view, tags)
    ensures Subseq(r, Candidates(store, from, to, user, view))
    ensures forall e :: multiset(r)[e] == if Shown(e, from, to, user, view, tags) then multiset(store)[e] else 0
  {
    var rows := Candidates(store, from, to, user, view);
    var r := TagFilter(tags, rows);
    SubseqSorted(r, rows);
    r
  }

  /** `GET /api/timetable`. The acting user is the first user of the store
      (`findFirst`); an unparsable `from` or `to` makes the store query
      throw (500). */
  function ListEvents(users: seq<User>, store: seq<Event>, q: Query, dateOf: DateOf): (r: Response<seq<Event>>)
    ensures |users| == 0 ==> r == BadRequest("No users in DB")
    ensures |users| > 0 && (Missing(q.from) || Missing(q.to)) ==> r == BadRequest("Missing from/to")
    ensures (|users| > 0 && !Missing(q.from) && !Missing(q.to)
             && (dateOf(Str(q.from.value)).None? || dateOf(Str(q.to.value)).None?)) ==> r == ServerError
    ensures r.Ok? <==>
      && |users| > 0 && !Missing(q.from) && !Missing(q.to)
      && dateOf(Str(q.from.value)).Some? && dateOf(Str(q.to.value)).Some?
    ensures r.Ok? ==>
      && Sorted(r.value)
      && (forall e :: e in r.value <==>
           Listed(e, store, dateOf(Str(q.from.value)).value, dateOf(Str(q.to.value)).value,
                  users[0].id, ViewOf(q), RequestedTags(q)))
      && forall e :: multiset(r.value)[e] ==
           if Shown(e, dateOf(Str(q.from.value)).value, dateOf(Str(q.to.value)).value,
                    users[0].id, ViewOf(q), RequestedTags(q))
           then multiset(store)[e] else 0
  {
    if |users| == 0 then BadRequest("No users in DB")
    else if Missing(q.from) || Missing(q.to) then BadRequest("Missing from/to")
    else
      var from := dateOf(Str(q.from.value));
      var to := dateOf(Str(q.to.value));
      if from.None? || to.None? then ServerError
      else Ok(Select(store, from.value, to.value, users[0].id, ViewOf(q), RequestedTags(q)))
  }

  lemma {:induction false} SubseqSorted(a: seq<Event>, b: seq<Event>)
    requires Subseq(a, b) && Sorted(b)
    ensures Sorted(a)
    decreases |b|
  {
    if |a| > 1 {
      if a[0] == b[0] && Subseq(a[1..], b[1..]) {
        SubseqSorted(a[1..], b[1..]);
        SubseqMembers(a[1..], b[1..]);
        var k :| 0 <= k < |b[1..]| && b[1..][k] == a[1];
        SortedHeadBelow(b, k + 1);
      } else {
        SubseqSorted(a, b[1..]);
      }
    } else if |a| == 1 {
    }
  }

  lemma {:induction false} SortedHeadBelow(s: seq<Event>, k: nat)
    requires Sorted(s) && k < |s|
    ensures s[0].startAt <= s[k].startAt
    decreases k
  {
    if k > 0 {
      SortedHeadBelow(s, k - 1);
    }
  }

  /** Every stored event that lies in the window, is visible to the acting
      user and carries all requested tags (any event, when no tags are
      requested) is returned. */
  lemma ListEventsComplete(users: seq<User>, store: seq<Event>, q: Query, dateOf: DateOf, e: Event)
    requires |users| > 0 && !Missing(q.from) && !Missing(q.to)
    requires dateOf(Str(q.from.value)).Some? && dateOf(Str(q.to.value)).Some?
    requires e in store
    requires InWindow(e, dateOf(Str(q.from.value)).value, dateOf(Str(q.to.value)).value)
    requires VisibleTo(e, users[0].id, ViewOf(q))
    requires RequestedTags(q) == [] || HasAllTags(e.tags, RequestedTags(q))
    ensures ListEvents(users, store, q, dateOf).Ok?
    ensures e in ListEvents(users, store, q, dateOf).value
  {
    var from, to := dateOf(Str(q.from.value)).value, dateOf(Str(q.to.value)).value;
    assert Listed(e, store, from, to, users[0].id, ViewOf(q), RequestedTags(q));
  }

  lemma InStrings(t: string, xs: seq<string>)
    ensures JString(t) in Strings(xs) <==> t in xs
  {
    if t in xs {
      var i :| 0 <= i < |xs| && xs[i] == t;
      assert Strings(xs)[i] == JString(t);
    }
  }

  /** Stored tags written by `POST` match a tag list exactly when every
      requested tag is one of the written tags (AND semantics). */
  lemma HasAllTagsOfEncoded(xs: seq<string>, tags: seq<string>)
    ensures HasAllTags(Encode(xs), tags) <==> forall t :: t in tags ==> t in xs
  {
    DecodeEncode(xs);
    assert StoredTags(Encode(xs)) == Some(JArray(Strings(xs)));
    forall t ensures JString(t) in Strings(xs) <==> t in xs {
      InStrings(t, xs);
    }
  }

  /** A number stored in front of the tags does not hide them: the filter
      still finds the strings after it. */
  lemma HasAllTagsPastNumber(d: string, xs: seq<string>, tags: seq<string>)
    requires IntegerText(d) && |xs| > 0
    ensures HasAllTags("[" + d + "," + Items(xs) + "]", tags) <==> forall t :: t in tags ==> t in xs
  {
    var stored := "[" + d + "," + Items(xs) + "]";
    DecodeNumberFirst(d, xs);
    assert stored[0] == '[';
    assert StoredTags(stored) == Some(JArray([JNumber(d)] + Strings(xs)));
    forall t ensures JString(t) in [JNumber(d)] + Strings(xs) <==> t in xs {
      InStrings(t, xs);
    }
  }

  // ---------------------------------------------------------------------
  // POST

  /** `getUser()`: the session cookie names a user by username; an absent
      or empty cookie, or an unknown name, resolves to no user. */
  function SessionUser(cookie: Option<string>, users: seq<User>): (r: Option<User>)
    ensures r.Some? ==> cookie.Some? && cookie.value != "" && r.value in users && r.value.username == cookie.value
    ensures r.None? && cookie.Some? && cookie.value != "" ==> forall u :: u in users ==> u.username != cookie.value
  {
    if cookie.None? || cookie.value == "" then None
    else FindByUsername(users, cookie.value)
  }

  function FindByUsername(users: seq<User>, name: string): (r: Option<User>)
    ensures r.Some? ==> r.value in users && r.value.username == name
    ensures r.None? ==> forall u :: u in users ==> u.username != name
  {
    if |users| == 0 then None
    else if users[0].username == name then Some(users[0])
    else FindByUsername(users[1..], name)
  }

  /** `body.tags` coerced: each element of an array through `String`, any
      other value to the empty list. */
  function CoerceTags(v: JsValue): (r: seq<string>)
    ensures !v.Arr? ==> r == []
    ensures v.Arr? ==> |r| == |v.items| && forall i :: 0 <= i < |r| ==> r[i] == ToJsString(v.items[i])
  {
    if v.Arr? then seq(|v.items|, i requires 0 <= i < |v.items| => ToJsString(v.items[i])) else []
  }

  function VisibilityOf(v: JsValue): (r: Visibility)
    ensures r == Public <==> v == Str("public")
  {
    if v == Str("public") then Public else Personal
  }

  /** Optional text fields: stored only when truthy. */
  function OptionalText(v: JsValue): (r: Option<string>)
    ensures r.Some? <==> Truthy(v)
    ensures r.Some? ==> r.value == ToJsString(v)
  {
    if Truthy(v) then Some(ToJsString(v)) else None
  }

  /** `body[key]` of a body that is neither `null` nor `undefined`. */
  function Prop(body: JsValue, key: string): JsValue
    requires !Nullish(body)
  {
    Get(body, key).value
  }

  /** The 400 rule: a title that is blank once trimmed, or a falsy start or
      end time. */
  predicate FieldsMissing(body: JsValue)
    requires !Nullish(body)
  {
    Trim(TextOr(Prop(body, "title"))) == "" || !Truthy(Prop(body, "startAt")) || !Truthy(Prop(body, "endAt"))
  }

  /** `String` of the title, or `new Date` of the start or end time (which
      turns its argument into text the same way), throws: these run before
      the 400 check. */
  predicate ReadThrows(body: JsValue)
    requires !Nullish(body)
  {
    StringThrows(Prop(body, "title")) || StringThrows(Prop(body, "startAt")) || StringThrows(Prop(body, "endAt"))
  }

  /** `String` of a tag array element, of the description or of the
      location throws: these run after the 400 check. */
  predicate StoreThrows(body: JsValue)
    requires !Nullish(body)
  {
    || (Prop(body, "tags").Arr? && StringThrows(Prop(body, "tags")))
    || StringThrows(Prop(body, "description"))
    || StringThrows(Prop(body, "location"))
  }

  /** The record `POST` inserts for a validated body, with the parsed
      start and end times and the session user as owner. */
  function NewEvent(newId: string, body: JsValue, start: int, end: int, owner: UserId): (e: Event)
    requires !Nullish(body)
    ensures e.id == newId && e.ownerId == owner && e.startAt == start && e.endAt == end
    ensures e.title == Trim(TextOr(Prop(body, "title")))
    ensures e.description == OptionalText(Prop(body, "description"))
    ensures e.location == OptionalText(Prop(body, "location"))
    ensures e.allDay == Truthy(Prop(body, "allDay"))
    ensures e.visibility == Public <==> Prop(body, "visibility") == Str("public")
    ensures StoredTags(e.tags) == Some(JArray(Strings(CoerceTags(Prop(body, "tags")))))
  {
    var tags := CoerceTags(Prop(body, "tags"));
    DecodeEncode(tags);
    assert Encode(tags) != "" by {
      assert Encode(tags)[0] == '[';
    }
    Event(
      newId,
      Trim(TextOr(Prop(body, "title"))),
      OptionalText(Prop(body, "description")),
      OptionalText(Prop(body, "location")),
      start,
      end,
      Truthy(Prop(body, "allDay")),
      Encode(tags),
      VisibilityOf(Prop(body, "visibility")),
      owner)
  }

  /** `POST /api/timetable`: the record handed to the store. `body` is `None`
      when the request body is not JSON; `newId` is the id the store
      assigns. A `null` body makes the property read throw, `String` or
      `new Date` of a field can throw (`ReadThrows`, `StoreThrows`), and a
      date that does not parse makes the store reject the record: all are
      500s. */
  function CreateEvent(cookie: Option<string>, users: seq<User>, body: Option<JsValue>,
                       dateOf: DateOf, newId: string): (r: Response<Event>)
    ensures SessionUser(cookie, users).None? ==> r == Unauthorized("Not logged in")
    ensures SessionUser(cookie, users).Some? && (body.None? || Nullish(body.value)) ==> r == ServerError
    ensures SessionUser(cookie, users).Some? && body.Some? && !Nullish(body.value) && ReadThrows(body.value) ==>
      r == ServerError
    ensures SessionUser(cookie, users).Some? && body.Some? && !Nullish(body.value) && !ReadThrows(body.value)
            && FieldsMissing(body.value) ==>
      r == BadRequest("Missing title/startAt/endAt")
    ensures SessionUser(cookie, users).Some? && body.Some? && !Nullish(body.value) && !ReadThrows(body.value)
            && !FieldsMissing(body.value)
            && (StoreThrows(body.value)
                || dateOf(Prop(body.value, "startAt")).None? || dateOf(Prop(body.value, "endAt")).None?) ==>
      r == ServerError
    ensures r.Ok? <==>
      && SessionUser(cookie, users).Some?
      && body.Some? && !Nullish(body.value) && !ReadThrows(body.value) && !FieldsMissing(body.value)
      && !StoreThrows(body.value)
      && dateOf(Prop(body.value, "startAt")).Some? && dateOf(Prop(body.value, "endAt")).Some?
    ensures r.Ok? ==>
      && r.value.ownerId == SessionUser(cookie, users).value.id
      && r.value.id == newId
      && Some(r.value.startAt) == dateOf(Prop(body.value, "startAt"))
      && Some(r.value.endAt) == dateOf(Prop(body.value, "endAt"))
    ensures r.Ok? ==>
      && body.value.Obj?
      && |r.value.title| > 0 && IsTrimmed(r.value.title)
      && r.value.title == Trim(TextOr(Prop(body.value, "title")))
    ensures r.Ok? ==>
      && r.value.description == OptionalText(Prop(body.value, "description"))
      && r.value.location == OptionalText(Prop(body.value, "location"))
      && r.value.allDay == Truthy(Prop(body.value, "allDay"))
      && (r.value.visibility == Public <==> Prop(body.value, "visibility") == Str("public"))
      && StoredTags(r.value.tags) == Some(JArray(Strings(CoerceTags(Prop(body.value, "tags")))))
  {
    var user := SessionUser(cookie, users);
    if user.None? then Unauthorized("Not logged in")
    else if body.None? || Nullish(body.value) then ServerError
    else if ReadThrows(body.value) then ServerError
    else if FieldsMissing(body.value) then BadRequest("Missing title/startAt/endAt")
    else if StoreThrows(body.value) then ServerError
    else
      var start := dateOf(Prop(body.value, "startAt"));
      var end := dateOf(Prop(body.value, "endAt"));
      if start.None? || end.None? then ServerError
      else
        assert body.value.Obj? by {
          ObjWhenTitled(body.value);
        }
        Ok(NewEvent(newId, body.value, start.value, end.value, user.value.id))
  }

  /** Only an object has a property whose text is non-blank. */
  lemma ObjWhenTitled(body: JsValue)
    requires !Nullish(body) && Trim(TextOr(Prop(body, "title"))) != ""
    ensures body.Obj?
  {
  }

  /** A logged-in user's body with a non-blank title and two non-empty
      times that parse is accepted unless `String` of a tag, the
      description or the location throws, and the stored title is the
      trimmed one. */
  lemma CreateEventAccepts(body: JsValue, title: string, startAt: string, endAt: string,
                           cookie: Option<string>, users: seq<User>, dateOf: DateOf, newId: string)
    requires body.Obj?
    requires Get(body, "title") == Some(Str(title))
    requires Get(body, "startAt") == Some(Str(startAt))
    requires Get(body, "endAt") == Some(Str(endAt))
    requires SessionUser(cookie, users).Some?
    requires Trim(title) != "" && startAt != "" && endAt != ""
    requires dateOf(Str(startAt)).Some? && dateOf(Str(endAt)).Some?
    ensures CreateEvent(cookie, users, Some(body), dateOf, newId).Ok? <==> !StoreThrows(body)
    ensures CreateEvent(cookie, users, Some(body), dateOf, newId).Ok? ==>
      CreateEvent(cookie, users, Some(body), dateOf, newId).value.title == Trim(title)
  {
    assert !ReadThrows(body);
    assert TextOr(Str(title)) == title;
    assert Trim(TextOr(Get(body, "title").value)) != "";
    assert Truthy(Get(body, "startAt").value) && Truthy(Get(body, "endAt").value);
    assert !FieldsMissing(body);
    assert dateOf(Get(body, "startAt").value).Some? && dateOf(Get(body, "endAt").value).Some?;
  }
}
