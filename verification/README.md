# Campus timetable and feed: a Dafny model

This project models the rules under a small campus web app: a shared
timetable, a social feed of posts, and a prototype login. It covers four
parts of the app:

- **The timetable API** (`GET` and `POST /api/timetable`).
  - `GET` parses the comma-separated tag parameter and keeps events that
    start in the half-open window `[from, to)`.
  - It applies the `view=mine` / `view=all` visibility rule.
  - It keeps events whose JSON-encoded tag array holds every requested tag,
    ordered by start time.
  - `POST` checks the session user, validates the title and times, defaults
    the visibility to `personal`, coerces the tags and stores them as JSON.
- **The timetable page.**
  - The 42-day Sunday-aligned month grid, its query range and its `YYYY-MM-DD` day keys.
  - Bucketing events by day and navigating months.
  - The body `addEvent` posts.
  - How the day view decodes stored tags.
- **The feed's in-memory state transitions.**
  - Love/save/follow toggles and the viewing history capped at 50.
  - Seats left and the round-robin masonry split.
  - Compose-dialog hashtag normalisation, `#askhow` tagging and the 120-character abstract.
  - Creating a post and the search/channel filter.
  - Applying to a post: the count increment and the deadline notice.
  - The timetable list filter and the apply form's required-field check and template fill.
- **The login route**: the credential fallback (`account`/`username`,
  `passcode`/`password`), trimming, the case-insensitive account and the
  exact passcode, and the session cookie.

Dates are integer day numbers counted from 1970-01-01 (a Thursday), with a
proleptic Gregorian conversion (`Calendar.Civil`). Times are integer
minutes, and the day of a time is `t / 1440`. `new Date(x)` on a request
value is a parameter `dateOf` (`None` for an invalid date). `toISOString` on
the page side is a parameter `iso`. The database is a sequence of events and
a sequence of users. JavaScript values are the datatype `Js.JsValue`, with
its truthiness, `||`, `??`, `String(v)` and property access. Errors a
handler would throw are `None` or a `ServerError` response.

Module layout:

| file | module | contents |
|---|---|---|
| seqs.dfy | Seqs | filter, order-preserving subsequence, removal, dedup, group-by |
| text.dfy | Text | JavaScript white space and `trim`, split/join, words, ASCII lower case, substring, decimal text |
| js.dfy | Js | JavaScript values and coercions |
| tag_json.dfy | TagJson | `JSON.stringify` of a string array and a `JSON.parse` of the full JSON grammar |
| timetable_route.dfy | TimetableRoute | `GET` and `POST /api/timetable` |
| calendar.dfy | Calendar | civil dates, month grid, month navigation, day keys |
| timetable_page.dfy | TimetablePage | page state, day buckets, `addEvent`, day-view tags |
| feed_lists.dfy | FeedLists | history, toggles, `cn` |
| masonry.dfy | Masonry | `useMasonry` |
| feed.dfy | Feed | posts, compose, create, filter, apply, timetable list |
| apply_form.dfy | ApplyForm | apply dialog checks |
| login_route.dfy | LoginRoute | `POST /api/login` |

## Model

| member | source | states |
|---|---|---|
| TimetableRoute.ParseTagCsv | app/api/timetable/route.ts:32-35 | Every parsed tag is non-empty, trimmed and comma-free. The tags are an order-preserving selection of the trimmed comma-separated pieces, and every non-empty piece is kept. |
| TimetableRoute.SortByStart | app/api/timetable/route.ts:46 | The result is in ascending start order and is a permutation of the input. |
| TimetableRoute.InsertByStartSorted | app/api/timetable/route.ts:46 | Inserting one event into a start-ordered list keeps it ordered. |
| TimetableRoute.Candidates | app/api/timetable/route.ts:37-47 | The result is start-ordered. An event is in it exactly when it is stored, starts in `[from, to)`, and is the user's own (`view=mine`) or is public or the user's own (any other view). Each such event appears as many times as it is stored, and no other event appears. |
| TimetableRoute.TagFilter | app/api/timetable/route.ts:50-59 | No requested tags leaves the list unchanged. Otherwise the result is an order-preserving sublist holding exactly the events whose tags decode to an array containing every requested tag, each as often as in the input. Text that fails to decode, or decodes to a non-array, is excluded. |
| TimetableRoute.ListEvents | app/api/timetable/route.ts:16-62 | No user gives 400 "No users in DB", checked before anything else. A missing or empty `from` or `to` gives 400 "Missing from/to". A date that does not parse gives a server error. A list is returned exactly when none of these happens. The list is start-ordered, and an event is in it exactly when it is stored, starts in the window, is visible under the view to the first user, and carries every requested tag. Each such event appears exactly as often as it is stored. |
| TimetableRoute.Select | app/api/timetable/route.ts:37-59 | The reported list is start-ordered and an order-preserving selection of the store query's rows. Each stored event in the window, visible and carrying every requested tag appears exactly as many times as it is stored, and nothing else appears. |
| TimetableRoute.ListEventsComplete | app/api/timetable/route.ts:37-59 | Conversely, every stored event that is in the window and visible is returned when no tags are requested, and otherwise when it carries all requested tags. |
| TimetableRoute.HasAllTagsPastNumber | app/api/timetable/route.ts:50-59 | A stored array whose first element is a number and whose remaining elements are strings passes the tag filter exactly when every requested tag is among those strings. The number itself never matches a tag. |
| TimetableRoute.HasAllTagsOfEncoded | app/api/timetable/route.ts:53-54 | For tags stored by the `POST` encoding, the tag filter matches exactly when every requested tag is among the stored ones. |
| TimetableRoute.SessionUser | app/api/timetable/route.ts:7-13 | A user is found only for a non-empty session cookie equal to that user's username. When no user is found for such a cookie, no stored user has that username. |
| TimetableRoute.FindByUsername | app/api/timetable/route.ts:12 | A found user is stored and has the name; `None` means no stored user has it. |
| TimetableRoute.CoerceTags | app/api/timetable/route.ts:78 | A non-array gives `[]`. An array gives one `String(x)` per element, in order. Where `String` of an element throws, `CreateEvent` answers 500 before this is used. |
| TimetableRoute.VisibilityOf | app/api/timetable/route.ts:79 | The visibility is public exactly when the body says the string `"public"`. |
| TimetableRoute.OptionalText | app/api/timetable/route.ts:84-85 | Description and location are stored exactly when the value is truthy, and the stored text is `String(v)`. Where `String(v)` throws, `CreateEvent` answers 500 before this is used. |
| TimetableRoute.CreateEvent | app/api/timetable/route.ts:65-96 | No session user gives 401 "Not logged in". A body that is not JSON or is `null` gives a server error. So does a title, `startAt` or `endAt` whose conversion to text throws (an object with its own `toString`, or an array holding one); this is checked before the 400 rule. A blank trimmed title or a falsy `startAt` or `endAt` gives 400 "Missing title/startAt/endAt". After that, a tag, description or location whose `String` throws gives a server error, and so does a time that does not parse. An event is created exactly when none of these happens. It has the new id, is owned by the user, has both parsed times and the trimmed non-empty title. Description and location are `String(v)` when truthy and absent otherwise. `allDay` is the body's truthiness, the visibility is public exactly for `"public"`, and the stored tags decode to the coerced tag list. |
| TimetableRoute.NewEvent | app/api/timetable/route.ts:78-93 | The stored record: each field as the route computes it from the body, with tags stored as JSON that decodes to the coerced tag list. |
| TimetableRoute.CreateEventAccepts | app/api/timetable/route.ts:69-85 | A logged-in body with a non-blank title and two non-empty parsable times is accepted exactly when `String` of no tag, description or location throws, and then the trimmed title is stored. |
| TimetableRoute.ReadThrows | app/api/timetable/route.ts:70-72 | Which bodies make the reads before the 400 check throw: a title, start or end time whose conversion to text throws. |
| TagJson.DecodeEncode | app/api/timetable/route.ts:89 | Parsing the `JSON.stringify` text of any string list gives back that list as a JSON array of strings. |
| TagJson.Encode | app/api/timetable/route.ts:89 | `JSON.stringify` of a string list is bracketed text; `DecodeEncode` shows that it parses back to the list. |
| TagJson.Decode | app/api/timetable/route.ts:53 | `JSON.parse` over the full JSON grammar: a value followed by nothing but white space, or `None` for text that is not JSON. Its properties are stated by `DecodeEncode`, `DecodeNull` and `DecodeNumberFirst`. |
| TagJson.DecodeNull | app/timetable/page.tsx:275 | The stored text `null` parses to the JSON `null` literal. |
| TagJson.DecodeNumberFirst | app/api/timetable/route.ts:53 | `JSON.parse` of an array holding a number followed by strings gives that number and those strings, in order. |
| Calendar.Civil | app/timetable/page.tsx:21-26 | Every day number has a valid calendar date whose day number it is. |
| Calendar.CivilOfDayNumber | app/timetable/page.tsx:21-26 | Converting a valid date to its day number and back gives the same date. |
| Calendar.DayNumberInjective | app/timetable/page.tsx:21-26 | Distinct valid dates have distinct day numbers. |
| Calendar.DaysInMonth | app/timetable/page.tsx:32-34 | Every month has between 28 and 31 days. |
| Calendar.NextDate | app/timetable/page.tsx:104 | The next calendar date is valid and one day number later. |
| Calendar.PrevDate | app/timetable/page.tsx:40 | The previous calendar date is valid and one day number earlier. |
| Calendar.Weekday | app/timetable/page.tsx:38 | The weekday is in 0..6. |
| Calendar.WeekdayOfEpoch | app/timetable/page.tsx:38 | 1970-01-01 is a Thursday (weekday 4), as `getDay` reports. |
| Calendar.WeekdayNext | app/timetable/page.tsx:38 | The next day has the next weekday, wrapping Saturday to Sunday, and a week later has the same weekday. |
| Calendar.StartOfMonth | app/timetable/page.tsx:28-30 | The result is day 1 of the same month, and the given day lies in that month's span. |
| Calendar.StartOfCalendarGrid | app/timetable/page.tsx:36-42 | The grid starts on a Sunday 0 to 6 days on or before the 1st of the month. |
| Calendar.GridRange | app/timetable/page.tsx:59-64 | The query range is exactly 42 days long, starting at the grid start. A time is in it exactly when its day is one of the 42 grid days. |
| Calendar.GridDays | app/timetable/page.tsx:99-107 | There are 42 grid days. The first is the range start and a Sunday, and each is one day after the previous. Every day of the month is among them. |
| Calendar.Ymd | app/timetable/page.tsx:21-26 | The local `YYYY-MM-DD` key of a day number; `YmdShape` states its shape and `YmdInjective` that distinct days get distinct keys. |
| Calendar.YmdShape | app/timetable/page.tsx:21-26 | The day key is the year's decimal text, `-`, two digits of the 1-based month, `-`, and two digits of the day. |
| Calendar.YmdInjective | app/timetable/page.tsx:21-26 | Distinct days have distinct keys. |
| Calendar.PrevMonth | app/timetable/page.tsx:154-157 | The result is day 1 of the month before, wrapping to December of the previous year, and that month ends where the current one starts. |
| Calendar.NextMonth | app/timetable/page.tsx:158-161 | The result is day 1 of the month after, wrapping to January of the next year, and it starts where the current month ends. |
| Calendar.NextOfPrevMonth | app/timetable/page.tsx:154-161 | Going back a month and then forward returns to the month's first day. |
| Calendar.PrevOfNextMonth | app/timetable/page.tsx:154-161 | Going forward a month and then back returns to the month's first day. |
| TimetablePage.InitialState | app/timetable/page.tsx:45-57 | The page opens on day 1 of the current month, with no selected day, empty form and filters, personal visibility and view `all`. |
| TimetablePage.EventsByDay | app/timetable/page.tsx:88-97 | Groups the loaded events by the key of their start day; `OnDayOfYmd` states each bucket's contents and order and `EventsByDaySizes` that the buckets partition the events. |
| TimetablePage.OnDayOfYmd | app/timetable/page.tsx:88-97 | The bucket under a day's key holds exactly the events starting on that day, in load order. |
| TimetablePage.SelectedEventsOfDay | app/timetable/page.tsx:109-110 | The selected day's events are the loaded events starting on it, in load order. |
| TimetablePage.EventsByDaySizes | app/timetable/page.tsx:88-97 | The bucket sizes over the distinct day keys add up to the number of events. |
| TimetablePage.GoPrevMonth | app/timetable/page.tsx:154-157 | Moves to day 1 of the previous month and clears the selected day. Nothing else changes. |
| TimetablePage.GoNextMonth | app/timetable/page.tsx:158-161 | Moves to day 1 of the next month and clears the selected day. Nothing else changes. |
| TimetablePage.NavigateBackAndForth | app/timetable/page.tsx:154-161 | From a month start, back then forward (or forward then back) restores the state apart from the cleared selection. |
| TimetablePage.AddEventObject | app/timetable/page.tsx:130-136 | The posted object carries the title, both times, the tags as strings, and the visibility text. |
| TimetablePage.AddEventBody | app/timetable/page.tsx:112-137 | Nothing is posted exactly when no day is selected. Otherwise it posts noon to one o'clock on the selected day, with the comma-split, trimmed, non-empty tags. |
| TimetablePage.CreateFromFields | app/timetable/page.tsx:127-137 | A body with those fields is stored by the route with those times, that owner, the trimmed title, that visibility, and tags that decode back to the posted list. |
| TimetablePage.AddEventStored | app/timetable/page.tsx:112-137 | What `addEvent` posts is stored as an hour-long event starting at noon of the selected day, with the trimmed title, the chosen visibility and the parsed tags. |
| TimetablePage.DayViewNullCrashes | app/timetable/page.tsx:273-276 | As written, the stored tag text `null` makes the day view's render fail. |
| TimetablePage.RenderedTagsAsWritten | app/timetable/page.tsx:273-303 | The as-written render fails exactly for parsed `null`, a non-empty JSON string, or an array holding an object at any depth (React refuses objects as children). Any tags it shows are the items of the parsed array. |
| TimetablePage.ObjectItemCrashes | app/timetable/page.tsx:295-301 | A parsed array holding an object, as from stored `["x",{}]`, makes the as-written render fail. |
| TimetablePage.RenderedTags | app/timetable/page.tsx:273-276 | The corrected render shows a list only when the text parsed to that array, and shows the array's items whenever it is one. |
| TimetablePage.RenderedTagsAgree | app/timetable/page.tsx:273-303 | Wherever the as-written render succeeds, it shows what the corrected render shows. |
| TimetablePage.DayViewOfEncoded | app/timetable/page.tsx:273-276 | For tags stored by the route, both renders show exactly the stored tag list. |
| FeedLists.OpenPostDetail | app/page.tsx:1960-1963 | The opened id is first and nowhere else. The rest is the previous history with the id removed, cut to its first 49 entries, so at most 50 entries are kept and nothing is lost while the history is shorter than 50. |
| FeedLists.OpenPostDetailIdempotent | app/page.tsx:1960-1963 | Opening the same post twice in a row gives the same history as once. |
| FeedLists.OpenPostDetailDistinct | app/page.tsx:1960-1963 | A history without repeats stays without repeats. |
| FeedLists.Toggle | app/page.tsx:1965-1973 | The id is present afterwards exactly when it was absent before. An absent id goes in front of the unchanged list. A present id has every occurrence removed, and the other ids keep their order. Other ids keep their membership. |
| FeedLists.ToggleTwice | app/page.tsx:1965-1973 | Toggling an absent id twice restores the list exactly. For a repeat-free list, toggling twice restores its contents. |
| FeedLists.ToggleDistinct | app/page.tsx:1965-1973 | A toggle keeps a repeat-free list repeat-free. |
| FeedLists.Classes | app/page.tsx:83-85 | The kept class names are non-empty. Every non-empty name argument is kept, and nothing else is. |
| FeedLists.ClassesInOrder | app/page.tsx:84 | The kept names are exactly the non-empty name arguments, in argument order and with their repetitions, as `classes.filter(Boolean)` gives. |
| FeedLists.Cn | app/page.tsx:83-85 | The kept class names joined by single spaces; `CnSplits` shows that splitting on spaces gives them back. |
| FeedLists.CnSplits | app/page.tsx:83-85 | With space-free names, splitting the joined class string on spaces gives back the kept names. |
| Masonry.Split | app/page.tsx:324-330 | There are exactly `columns` columns, and column `c` holds the items at positions `i` with `i % columns == c`, in order. |
| Masonry.ColumnSize | app/page.tsx:326-328 | Column `c` holds `n / columns` items, plus one when `c < n % columns`. |
| Masonry.ColumnsBalanced | app/page.tsx:326-328 | Any two columns differ in size by at most one, and the left one is never shorter. |
| Masonry.ColumnSubseq | app/page.tsx:326-328 | Every column is an order-preserving selection of the items. |
| Masonry.ItemInColumn | app/page.tsx:326-328 | Item `i` is in column `i % columns`. |
| Masonry.TotalCount | app/page.tsx:326-328 | The columns together hold exactly as many items as the input. |
| Feed.SeatsLeft | app/page.tsx:297-301 | Seats left is never negative and never below capacity minus applications, with missing values as 0. It is 0 or exactly that difference. |
| Feed.AuthorLabel | app/page.tsx:1923-1930 | A club post is labelled with the club's name when the club directory has a non-empty one, and otherwise with "Club". A person's post works the same way with the people directory and "Student". The label is never empty. |
| Feed.AuthorLabelOwnDirectory | app/page.tsx:1923-1930 | A club label does not depend on the people directory, and a person's label does not depend on the clubs directory. |
| Feed.ComposeTags | app/page.tsx:1151-1155 | There is one tag per white-space-separated word. Each starts with `#` and has no white space. A word already starting with `#` is kept unchanged, and any other word gets `#` in front. |
| Feed.ComposeTagsStable | app/page.tsx:1151-1155 | Composing the written-back tags again gives the same tags. |
| Feed.Submit | app/page.tsx:1150-1167 | Title and body are trimmed slices of the input. The tags are the compose rule applied to the tag text. Mode, `who`, author, capacity, deadline and requirement note pass through. |
| Feed.Abstract | app/page.tsx:1998-2001 | A body of at most 120 characters is its own abstract. A longer body gives its first 120 characters followed by `…`. |
| Feed.AbstractIdempotent | app/page.tsx:1998-2001 | An abstract is its own abstract. |
| Seqs.DedupInFirstOrder | app/page.tsx:1987 | `Array.from(new Set(s))` lists each element once, in the order of its first occurrence in `s`. |
| Feed.AskHowTags | app/page.tsx:1985-1988 | `#askhow` comes first, there are no duplicates, and every given tag is kept. The result is an order-preserving selection of `#askhow` followed by the tags, listed in the order of their first occurrences there (`InFirstOrder`), as a `Set` iterates. |
| Feed.AskHowTagsIdempotent | app/page.tsx:1985-1988 | Ask-how tagging twice gives the same list as once. |
| Feed.NewPost | app/page.tsx:1990-2016 | The post has the given id and the payload's title, body and author. Recruitment posts alone get an abstract, a deadline, a requirement note (absent on every other post), a capacity (0 becomes 10) and a zero count, so all their seats are free. Ask-how posts get the ask-how tags, and other posts keep the payload's tags. The author type follows `who`, and there is one first comment by the user. |
| Feed.CreatePost | app/page.tsx:1975-2023 | The new post goes in front of the existing posts and the compose dialog closes. A recruitment post switches to the recruitment tab and channel. Any other post switches to the post tab, and to the ask-how channel for an ask-how post or Explore otherwise. Nothing else changes. |
| Feed.SearchPosts | app/page.tsx:1933-1938 | The result is an order-preserving selection holding exactly the posts whose lower-cased text contains the query, each as many times as it is in the input. |
| Feed.ChannelPosts | app/page.tsx:1942-1946 | The result is an order-preserving selection holding exactly the posts of the channel, each as many times as it is in the input. The timetable channel is empty. |
| Feed.FilteredPosts | app/page.tsx:1932-1947 | The feed is an order-preserving selection of the posts, holding each post that matches the search and the effective channel as many times as it is in the feed. The recruitment tab forces the recruitment channel, and the timetable channel shows nothing. |
| Feed.FilteredPostsExact | app/page.tsx:1932-1947 | A post is shown exactly when it matches the trimmed, lower-cased query and belongs to the effective channel. |
| Feed.CreatedPostShown | app/page.tsx:2018-2022 | With an empty search, a newly created post heads the feed shown next, whatever its kind. |
| Feed.AskHowFirst | app/page.tsx:1943 | A post tagged `#askhow` first is in the ask-how channel. |
| Feed.LastById | app/page.tsx:1887 | A post is found exactly when one has the id. The found post is the last post with that id: no later post has it. |
| Feed.CountApplication | app/page.tsx:2041 | Exactly the posts with the id get one more application, and every other post is unchanged. |
| Feed.AddNotice | app/page.tsx:2043-2052 | No deadline, an empty deadline, or an existing notice mentioning the title leaves the notices unchanged. Otherwise the notice "Apply: author — title" with the post's deadline and type "Recruitment" is put in front of the unchanged notices. |
| Feed.SubmitApplication | app/page.tsx:2025-2055 | There is no state exactly when no post has the id (the source throws). Otherwise only the matching posts' counts go up by one. The application "author — title", "Just now", "Submitted" with the form goes in front of the applications. The notices are what the deadline-notice rule gives for the last post with the id. The dialog closes, and nothing else changes. |
| Feed.ApplyTwiceOneNotice | app/page.tsx:2041-2052 | Applying to the same post a second time adds no further notice. |
| Feed.LastByIdCounted | app/page.tsx:2041 | After counting, looking up the post by id gives the same post with one more application. |
| Feed.TimetableFilter | app/page.tsx:618-622 | The result is an order-preserving selection holding exactly the items passing both filters, each as many times as it is in the input. With both filters empty, everything passes. |
| Feed.TagFilterIgnoresCase | app/page.tsx:619 | The tag filter gives the same answer for a filter text and its lower-case form. |
| ApplyForm.AnyMissing | app/page.tsx:971-973 | Submitting is blocked exactly when some required field is blank after `String(v \|\| "").trim()`. |
| ApplyForm.MissingRequiredNames | app/page.tsx:956-973 | Submitting is blocked exactly when the first or the last name is blank. |
| ApplyForm.ApplyTemplate | app/page.tsx:975-984 | Each of the five template fields becomes the template value when it is truthy and keeps the form value otherwise. All other fields are unchanged. |
| ApplyForm.ApplyTemplateIdempotent | app/page.tsx:975-984 | Filling from the template twice gives the same form as once. |
| ApplyForm.TemplateCompletes | app/page.tsx:971-984 | A template with non-blank first and last names unblocks submitting, whatever the form held. |
| Js.StringThrows | app/api/login/route.ts:8-9 | `String(v)` throws exactly for an object with its own `toString` property and for an array with such a value at any depth. |
| LoginRoute.Credential | app/api/login/route.ts:8-9 | A `null` body throws. An object body throws exactly when `String` of the field it supplies throws (an object with its own `toString`, or an array holding one). Any other body gives empty text. A credential that is read is trimmed. |
| LoginRoute.CredentialOfObject | app/api/login/route.ts:8-9 | For an object body, the credential is the trimmed text of the newer field unless it is absent or `null`, then of the older field, then empty. Reading throws exactly when `String` of that field throws. |
| LoginRoute.Login | app/api/login/route.ts:3-32 | The status is 200, 400 or 401. It is 400 exactly when the body is not JSON, is `null`, or is an object where `String` of a supplied credential field throws. It is 200 exactly when the trimmed account lower-cases to `klub` and the trimmed passcode is `1234`. The session cookie (`session=demo`, path `/`, readable by scripts, `lax`) is set exactly on 200, and an error message is sent exactly otherwise. |
| LoginRoute.LoginOf | app/api/login/route.ts:12-17 | A non-null body gets 200 when the credentials match and 401 otherwise. |
| LoginRoute.LoginAccepts | app/api/login/route.ts:8-28 | An object with text `account` and `passcode` fields whose trimmed values are the account in any letter case and the passcode logs in. |
| LoginRoute.Fallback | app/api/login/route.ts:8-9 | The older field name is read when the newer one is absent or `null`. Reading throws exactly when `String` of the older field throws. |
| LoginRoute.EmptyPrimaryNoFallback | app/api/login/route.ts:8-9 | An empty newer field hides the older one. |
| LoginRoute.EmptyAccountRefused | app/api/login/route.ts:8-30 | An empty `account` is refused even when `username` is right: 401, or 400 when `String` of the supplied passcode throws. |
| LoginRoute.ObjectAccountRefused | app/api/login/route.ts:8-30 | An `account` that is an object with its own `toString` gets 400 even with the right passcode. |
| LoginRoute.NumericPasscode | app/api/login/route.ts:9-13 | A numeric passcode matches exactly when it is the number 1234. |

## Left out

- Persistence: the Prisma store is a sequence of events and a sequence of users. `findFirst` is the first user, `findUnique` is a search by username, and the database's order for equal start times is a stable insertion sort.
- Network, `fetch`, `load`, the loading flags, alerts, `window.location` and the login page: all asynchronous or UI code.
- React rendering, styling, and the `document.cookie` redirect check on the feed page: UI only.
- JavaScript `Date`: local time zones, daylight saving, `toISOString` and parsing of arbitrary text. These are the parameters `iso` and `dateOf`; dates are day numbers and times are minutes.
- Floating point: the seats bar ratio, percentages and the progress clamp. Capacities and counts are integers, so `Number(payload.capacity || 10)` on a non-numeric or fractional value is not modelled.
- Numbers in JSON request bodies are integers (`Js.JsValue.Num`). A fractional number, such as a tag `1.5` that the route stores as "1.5", cannot be expressed. `String` of a number of magnitude at least 10^21 gives exponent notation (`1e+21`) in JavaScript, while the model writes every digit.
- `Math.random` ids and `toLocaleString` formatting: ids are parameters.
- Unicode case folding: `toLowerCase` is ASCII lowering, so characters such as the Kelvin sign, which JavaScript folds to `k`, are not folded.
- String lengths and `slice` count Dafny characters, not UTF-16 code units: a 120-unit abstract can differ for text outside the Basic Multilingual Plane.
- TagJson.Decode: a `\u` escape of an unpaired UTF-16 surrogate is rejected as if the text did not parse, because a Dafny string cannot hold a lone surrogate; `JSON.parse` accepts it. A well-formed surrogate pair decodes to one character. Number text is kept as text, not converted to a double.
- TimetablePage.RenderedTagsAsWritten: an object whose `length` member compares greater than 0 would make the as-written day view throw on `.map`. The model renders every object as no tags.
- TimetablePage.RenderedTags: the corrected list is the parsed array's items, whatever they are. An object among them would still fail in React; the correction is only about values that are not arrays.
- `GET /api/login`'s fixed message and the `{ ok: true }` reply body: constants with no logic.
- Feed.SeatsLeft: `seatsLeft` is modelled on integers; `NaN` from a non-numeric capacity is not.
- Masonry.Split: requires at least one column. The source is called only with two; with zero columns `cols[i % 0]` is undefined and the first `push` throws.
- Clearing the forms after a successful add or apply, the `inMonth` styling and the media URL constants are state resets and display data. The media URLs are defined but no property is stated about them.

## Findings

| source | as written | input that shows it | evidently intended | confidence | as-written member | corrected member |
|---|---|---|---|---|---|---|
| app/timetable/page.tsx:273-276 | The day view assigns the result of `JSON.parse` to the tag list and then reads `.length` and `.map`. Only a parse failure falls back to the empty list. | A stored tag text of `null` (or a non-empty JSON string such as `"x"`): `null.length` throws and the day view fails to render | Anything that is not an array renders as no tags, as the route's filter already treats it | not executed | TimetablePage.DayViewNullCrashes | TimetablePage.RenderedTags |
