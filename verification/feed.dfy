/** The campus feed's post rules: composing and creating posts, applying
    to a recruitment post, seats left, the channel and search filter over
    the post list, and the filter of the timetable list. The feed state is
    an immutable record; ids that the application draws at random are
    parameters. */
module Feed {
  import opened Seqs
  import opened Text
  import opened Js
  import opened FeedLists

  datatype PostType = Plain | Recruitment

  datatype AuthorType = ClubAuthor | PersonAuthor

  datatype Comment = Comment(id: string, user: string, text: string, time: string)

  /** A post; the last four fields are set on recruitment posts only. */
  datatype Post = Post(
    id: string,
    kind: PostType,
    authorType: AuthorType,
    authorId: string,
    createdAt: string,
    title: string,
    body: string,
    abstractText: Option<string>,
    media: string,
    tags: seq<string>,
    comments: seq<Comment>,
    deadline: Option<string>,
    capacity: Option<int>,
    appliedCount: Option<int>,
    requirementNote: Option<string>)

  datatype MainTab = PostTab | RecruitmentTab | MessageTab | ProfileTab

  datatype Channel = TimetableChannel | Following | Explore | AskHowChannel | RecruitmentChannel

  datatype Application = Application(id: string, postId: string, title: string, time: string,
                                     status: string, form: map<string, JsValue>)

  /** An entry of the deadline notices. */
  datatype Notice = Notice(id: string, title: string, date: string, source: string)

  datatype FeedState = FeedState(
    posts: seq<Post>,
    mainTab: MainTab,
    channel: Channel,
    query: string,
    composeOpen: bool,
    following: seq<string>,
    applyPostId: Option<string>,
    applications: seq<Application>,
    deadlines: seq<Notice>)

  /** Display names of clubs and of people, by id. */
  type Directory = map<string, string>

  // ---------------------------------------------------------------------
  // Seats

  /** `x ?? 0`. */
  function OrZero(x: Option<int>): int {
    if x.Some? then x.value else 0
  }

  /** `seatsLeft`: capacity minus applications, never below zero; a missing
      count reads as zero. */
  function SeatsLeft(capacity: Option<int>, applied: Option<int>): (r: nat)
    ensures r >= OrZero(capacity) - OrZero(applied)
    ensures r == 0 || r == OrZero(capacity) - OrZero(applied)
  {
    if OrZero(capacity) - OrZero(applied) > 0 then OrZero(capacity) - OrZero(applied) else 0
  }

  /** One more application takes one seat, if any is left. */
  lemma SeatsAfterApplication(capacity: Option<int>, applied: Option<int>)
    ensures SeatsLeft(capacity, Some(OrZero(applied) + 1))
            == if SeatsLeft(capacity, applied) > 0 then SeatsLeft(capacity, applied) - 1 else 0
  {
  }

  // ---------------------------------------------------------------------
  // Author labels

  /** `authorMeta(p).label`: the club or person name, with a fallback when
      the id is unknown or the name is empty. */
  function AuthorLabel(p: Post, clubs: Directory, people: Directory): (r: string)
    ensures r != ""
    ensures p.authorType == ClubAuthor && p.authorId in clubs && clubs[p.authorId] != "" ==> r == clubs[p.authorId]
    ensures p.authorType == PersonAuthor && p.authorId in people && people[p.authorId] != "" ==> r == people[p.authorId]
    ensures p.authorType == ClubAuthor && (p.authorId !in clubs || clubs[p.authorId] == "") ==> r == "Club"
    ensures p.authorType == PersonAuthor && (p.authorId !in people || people[p.authorId] == "") ==> r == "Student"
  {
    var names := if p.authorType == ClubAuthor then clubs else people;
    if p.authorId in names && names[p.authorId] != "" then names[p.authorId]
    else if p.authorType == ClubAuthor then "Club" else "Student"
  }

  /** A club's label is looked up among the clubs only, a person's among
      the people only. */
  lemma AuthorLabelOwnDirectory(p: Post, clubs: Directory, people: Directory, other: Directory)
    ensures p.authorType == ClubAuthor ==> AuthorLabel(p, clubs, other) == AuthorLabel(p, clubs, people)
    ensures p.authorType == PersonAuthor ==> AuthorLabel(p, other, people) == AuthorLabel(p, clubs, people)
  {
  }

  // ---------------------------------------------------------------------
  // Composing

  datatype Mode = PostMode | AskHowMode | RecruitmentMode

  datatype Who = Student | ClubWho

  /** The compose dialog's fields; `tags` is the raw tag text. */
  datatype ComposeForm = ComposeForm(mode: Mode, who: Who, authorId: string, title: string, body: string,
                                     tags: string, deadline: string, capacity: int, requirementNote: string)

  /** What the compose dialog hands to `createPost`. */
  datatype Payload = Payload(mode: Mode, who: Who, authorId: string, title: string, body: string,
                             tags: seq<string>, deadline: string, capacity: int, requirementNote: string)

  /** A token made into a hashtag: kept when it starts with `#`, otherwise
      prefixed with one. */
  function HashTag(t: string): string {
    if |t| > 0 && t[0] == '#' then t else "#" + t
  }

  /** The compose dialog's tag list: the white-space separated words of
      the tag text, in order, each made into a hashtag. */
  function ComposeTags(tags: string): (r: seq<string>)
    ensures |r| == |Words(tags)|
    ensures forall i :: 0 <= i < |r| ==> |r[i]| > 1 || r[i] == Words(tags)[i]
    ensures forall i :: 0 <= i < |r| ==> r[i][0] == '#' && NoSpace(r[i])
    ensures forall i :: 0 <= i < |r| ==> Words(tags)[i][0] == '#' ==> r[i] == Words(tags)[i]
    ensures forall i :: 0 <= i < |r| ==> Words(tags)[i][0] != '#' ==> r[i] == "#" + Words(tags)[i]
  {
    var ws := Words(tags);
    var r := seq(|ws|, i requires 0 <= i < |ws| => HashTag(ws[i]));
    assert forall i :: 0 <= i < |r| ==> NoSpace(r[i]) by {
      forall i | 0 <= i < |r| ensures NoSpace(r[i]) {
        if ws[i][0] != '#' {
          assert forall k :: 1 <= k < |r[i]| ==> r[i][k] == ws[i][k - 1];
        }
      }
    }
    r
  }

  /** Writing the composed tags back into the tag text and composing again
      gives the same tags. */
  lemma ComposeTagsStable(tags: string)
    ensures ComposeTags(Join(ComposeTags(tags), " ")) == ComposeTags(tags)
  {
    var r := ComposeTags(tags);
    WordsJoin(r);
    assert Words(Join(r, " ")) == r;
  }

  /** `submit` in the compose dialog: title and body trimmed, tags
      composed. */
  function Submit(f: ComposeForm): (p: Payload)
    ensures IsTrimmed(p.title) && Slice(p.title, f.title)
    ensures IsTrimmed(p.body) && Slice(p.body, f.body)
    ensures forall i :: 0 <= i < |p.tags| ==> |p.tags[i]| > 0 && p.tags[i][0] == '#' && NoSpace(p.tags[i])
    ensures p.tags == ComposeTags(f.tags)
    ensures p.mode == f.mode && p.who == f.who && p.authorId == f.authorId && p.capacity == f.capacity
    ensures p.deadline == f.deadline && p.requirementNote == f.requirementNote
  {
    var tags := ComposeTags(f.tags);
    Payload(f.mode, f.who, f.authorId, Trim(f.title), Trim(f.body), tags,
            f.deadline, f.capacity, f.requirementNote)
  }

  // ---------------------------------------------------------------------
  // Creating a post

  const AbstractLength: nat := 120

  const DefaultCapacity: int := 10

  const AskHowTag: string := "#askhow"

  const RecruitmentMedia: string := "https://images.unsplash.com/photo-1522202176988-66273c2fd55f?auto=format&fit=crop&w=1200&q=80"
  const AskHowMedia: string := "https://images.unsplash.com/photo-1520975916090-3105956dac38?auto=format&fit=crop&w=1200&q=80"
  const PostMedia: string := "https://images.unsplash.com/photo-1522071820081-009f0129c71c?auto=format&fit=crop&w=1200&q=80"

  /** A recruitment post's abstract: the first 120 characters of the body,
      followed by an ellipsis only when the body is longer. */
  function Abstract(body: string): (r: string)
    ensures |body| <= AbstractLength ==> r == body
    ensures |body| > AbstractLength ==>
      |r| == AbstractLength + 1 && r[..AbstractLength] == body[..AbstractLength] && r[AbstractLength] == '…'
  {
    Take(body, AbstractLength) + (if |body| > AbstractLength then "…" else "")
  }

  /** An abstract is its own abstract. */
  lemma AbstractIdempotent(body: string)
    ensures Abstract(Abstract(body)) == Abstract(body)
  {
    var r := Abstract(body);
    if |body| > AbstractLength {
      assert r == r[..AbstractLength] + "…";
    }
  }

  /** The tags of an ask-how post: `#askhow` first, then the given tags,
      each kept once. */
  function AskHowTags(tags: seq<string>): (r: seq<string>)
    ensures |r| > 0 && r[0] == AskHowTag
    ensures NoDuplicates(r)
    ensures forall i :: 0 <= i < |r| ==> r[i] == AskHowTag || r[i] in tags
    ensures forall i :: 0 <= i < |tags| ==> tags[i] in r
    ensures Subseq(r, [AskHowTag] + tags)
    ensures InFirstOrder(r, [AskHowTag] + tags)
  {
    var r := Dedup([AskHowTag] + tags);
    DedupIsSubseq([AskHowTag] + tags);
    DedupInFirstOrder([AskHowTag] + tags);
    assert forall i :: 0 <= i < |tags| ==> tags[i] == ([AskHowTag] + tags)[i + 1];
    r
  }

  /** Ask-how tagging a second time changes nothing. */
  lemma AskHowTagsIdempotent(tags: seq<string>)
    ensures AskHowTags(AskHowTags(tags)) == AskHowTags(tags)
  {
    DedupRepeatedHead(AskHowTags(tags));
  }

  /** The post `createPost` builds from a payload; `id` is the random id,
      `displayName` the profile's name on the first comment. */
  function NewPost(p: Payload, id: string, displayName: string): (post: Post)
    ensures post.id == id
    ensures post.title == p.title && post.body == p.body && post.authorId == p.authorId
    ensures post.kind == Recruitment <==> p.mode == RecruitmentMode
    ensures post.authorType == ClubAuthor <==> p.who == ClubWho
    ensures p.mode == AskHowMode ==> post.tags == AskHowTags(p.tags)
    ensures p.mode != AskHowMode ==> post.tags == p.tags
    ensures post.abstractText.Some? <==> p.mode == RecruitmentMode
    ensures post.capacity.Some? <==> p.mode == RecruitmentMode
    ensures post.appliedCount.Some? <==> p.mode == RecruitmentMode
    ensures post.deadline.Some? <==> p.mode == RecruitmentMode
    ensures post.requirementNote.Some? <==> p.mode == RecruitmentMode
    ensures p.mode == RecruitmentMode ==>
      && post.abstractText == Some(Abstract(p.body))
      && post.capacity.value == (if p.capacity == 0 then DefaultCapacity else p.capacity)
      && post.capacity.value != 0
      && post.appliedCount == Some(0)
      && post.deadline == Some(p.deadline)
      && post.requirementNote == Some(p.requirementNote)
      && SeatsLeft(post.capacity, post.appliedCount) == (if post.capacity.value > 0 then post.capacity.value else 0)
    ensures |post.comments| == 1 && post.comments[0].user == displayName
  {
    var recruit := p.mode == RecruitmentMode;
    Post(
      id,
      if recruit then Recruitment else Plain,
      if p.who == ClubWho then ClubAuthor else PersonAuthor,
      p.authorId,
      "Now",
      p.title,
      p.body,
      if recruit then Some(Abstract(p.body)) else None,
      if recruit then RecruitmentMedia else if p.mode == AskHowMode then AskHowMedia else PostMedia,
      if p.mode == AskHowMode then AskHowTags(p.tags) else p.tags,
      [Comment("c_" + id + "_1", displayName, "(Prototype) First comment!", "Now")],
      if recruit then Some(p.deadline) else None,
      if recruit then Some(if p.capacity == 0 then DefaultCapacity else p.capacity) else None,
      if recruit then Some(0) else None,
      if recruit then Some(p.requirementNote) else None)
  }

  /** The tab and channel `createPost` switches to. */
  function TabAfterCreate(m: Mode): MainTab {
    if m == RecruitmentMode then RecruitmentTab else PostTab
  }

  function ChannelAfterCreate(m: Mode): Channel {
    match m
    case RecruitmentMode => RecruitmentChannel
    case AskHowMode => AskHowChannel
    case PostMode => Explore
  }

  /** `createPost`: the new post goes in front, the dialog closes, and the
      view switches to where the post belongs. */
  function CreatePost(s: FeedState, p: Payload, id: string, displayName: string): (r: FeedState)
    ensures |r.posts| == |s.posts| + 1 && r.posts[1..] == s.posts
    ensures r.posts[0] == NewPost(p, id, displayName)
    ensures !r.composeOpen
    ensures r.mainTab == (if p.mode == RecruitmentMode then RecruitmentTab else PostTab)
    ensures p.mode == RecruitmentMode ==> r.channel == RecruitmentChannel
    ensures p.mode == AskHowMode ==> r.channel == AskHowChannel
    ensures p.mode == PostMode ==> r.channel == Explore
    ensures r == s.(posts := r.posts, composeOpen := false, mainTab := r.mainTab, channel := r.channel)
  {
    s.(posts := [NewPost(p, id, displayName)] + s.posts,
       composeOpen := false,
       mainTab := TabAfterCreate(p.mode),
       channel := ChannelAfterCreate(p.mode))
  }

  // ---------------------------------------------------------------------
  // Filtering the feed

  /** The text the search looks in, lower-cased. */
  function Haystack(p: Post, clubs: Directory, people: Directory): string {
    ToLower(p.title + " " + p.body + " " + (if p.abstractText.Some? then p.abstractText.value else "") + " "
            + AuthorLabel(p, clubs, people) + " " + Join(p.tags, " "))
  }

  /** The search text as the filter uses it: trimmed and lower-cased. */
  function SearchKey(query: string): string {
    ToLower(Trim(query))
  }

  predicate MatchesQuery(p: Post, q: string, clubs: Directory, people: Directory) {
    q == "" || Contains(Haystack(p, clubs, people), q)
  }

  /** The recruitment tab always shows the recruitment channel. */
  function EffectiveChannel(tab: MainTab, channel: Channel): Channel {
    if tab == RecruitmentTab then RecruitmentChannel else channel
  }

  predicate HasAskHowTag(p: Post) {
    exists i :: 0 <= i < |p.tags| && Contains(ToLower(p.tags[i]), AskHowTag)
  }

  /** Whether a post belongs to a channel; the timetable channel shows no
      posts. */
  predicate InChannel(p: Post, c: Channel, following: seq<string>) {
    match c
    case RecruitmentChannel => p.kind == Recruitment
    case AskHowChannel => HasAskHowTag(p)
    case Following => p.authorId in following
    case TimetableChannel => false
    case Explore => true
  }

  function QueryFilter(q: string, clubs: Directory, people: Directory): Post -> bool {
    p => MatchesQuery(p, q, clubs, people)
  }

  function ChannelFilter(c: Channel, following: seq<string>): Post -> bool {
    p => InChannel(p, c, following)
  }

  /** The posts matching the search, in feed order. */
  function SearchPosts(posts: seq<Post>, q: string, clubs: Directory, people: Directory): (r: seq<Post>)
    ensures Subseq(r, posts)
    ensures forall i :: 0 <= i < |r| ==> MatchesQuery(r[i], q, clubs, people)
    ensures forall i :: 0 <= i < |posts| && MatchesQuery(posts[i], q, clubs, people) ==> posts[i] in r
    ensures forall x :: multiset(r)[x] == if MatchesQuery(x, q, clubs, people) then multiset(posts)[x] else 0
  {
    var keep := QueryFilter(q, clubs, people);
    FilterIsSubseq(keep, posts);
    forall x { FilterMultiset(keep, posts, x); }
    Filter(keep, posts)
  }

  /** The posts of a channel, in feed order. */
  function ChannelPosts(posts: seq<Post>, c: Channel, following: seq<string>): (r: seq<Post>)
    ensures Subseq(r, posts)
    ensures forall i :: 0 <= i < |r| ==> InChannel(r[i], c, following)
    ensures forall i :: 0 <= i < |posts| && InChannel(posts[i], c, following) ==> posts[i] in r
    ensures c == TimetableChannel ==> r == []
    ensures forall x :: multiset(r)[x] == if InChannel(x, c, following) then multiset(posts)[x] else 0
  {
    if c == TimetableChannel then []
    else
      var keep := ChannelFilter(c, following);
      FilterIsSubseq(keep, posts);
      forall x { FilterMultiset(keep, posts, x); }
      Filter(keep, posts)
  }

  /** A post the feed shows: it matches the search and belongs to the
      effective channel. */
  predicate InFeed(p: Post, s: FeedState, clubs: Directory, people: Directory) {
    MatchesQuery(p, SearchKey(s.query), clubs, people)
    && InChannel(p, EffectiveChannel(s.mainTab, s.channel), s.following)
  }

  /** `filteredPosts`: the posts matching the search, then narrowed to the
      effective channel, in feed order. */
  function FilteredPosts(s: FeedState, clubs: Directory, people: Directory): (r: seq<Post>)
    ensures Subseq(r, s.posts)
    ensures EffectiveChannel(s.mainTab, s.channel) == TimetableChannel ==> r == []
    ensures forall x :: multiset(r)[x] == if InFeed(x, s, clubs, people) then multiset(s.posts)[x] else 0
  {
    var base := SearchPosts(s.posts, SearchKey(s.query), clubs, people);
    var r := ChannelPosts(base, EffectiveChannel(s.mainTab, s.channel), s.following);
    SubseqTrans(r, base, s.posts);
    r
  }

  /** A post is shown exactly when it matches the search and belongs to the
      effective channel. */
  lemma FilteredPostsExact(s: FeedState, clubs: Directory, people: Directory)
    ensures var r := FilteredPosts(s, clubs, people);
      forall i :: 0 <= i < |r| ==>
        MatchesQuery(r[i], SearchKey(s.query), clubs, people)
        && InChannel(r[i], EffectiveChannel(s.mainTab, s.channel), s.following)
    ensures var r := FilteredPosts(s, clubs, people);
      forall i :: 0 <= i < |s.posts| ==>
        MatchesQuery(s.posts[i], SearchKey(s.query), clubs, people)
        && InChannel(s.posts[i], EffectiveChannel(s.mainTab, s.channel), s.following)
        ==> s.posts[i] in r
  {
    var q, c := SearchKey(s.query), EffectiveChannel(s.mainTab, s.channel);
    if c != TimetableChannel {
      FilterTwice(QueryFilter(q, clubs, people), ChannelFilter(c, s.following), s.posts);
    }
  }

  /** Right after `createPost` with an empty search, the new post heads the
      list the feed shows. */
  lemma CreatedPostShown(s: FeedState, p: Payload, id: string, displayName: string,
                         clubs: Directory, people: Directory)
    requires SearchKey(s.query) == ""
    ensures var r := FilteredPosts(CreatePost(s, p, id, displayName), clubs, people);
      |r| > 0 && r[0] == NewPost(p, id, displayName)
  {
    var t := CreatePost(s, p, id, displayName);
    var post := NewPost(p, id, displayName);
    var c := EffectiveChannel(t.mainTab, t.channel);
    assert c != TimetableChannel;
    if p.mode == AskHowMode {
      AskHowFirst(post);
    }
    assert InChannel(post, c, t.following);
    var f, g := QueryFilter("", clubs, people), ChannelFilter(c, t.following);
    FilterTwiceFront(f, g, post, s.posts);
    assert FilteredPosts(t, clubs, people) == Filter(g, Filter(f, [post] + s.posts));
  }

  /** A post tagged `#askhow` first belongs to the ask-how channel. */
  lemma AskHowFirst(p: Post)
    requires |p.tags| > 0 && p.tags[0] == AskHowTag
    ensures HasAskHowTag(p)
  {
    ToLowerFixed(AskHowTag);
    ContainsSelf(AskHowTag);
    assert Contains(ToLower(p.tags[0]), AskHowTag);
  }

  lemma ContainsSelf(s: string)
    ensures Contains(s, s)
  {
    assert s[..|s|] == s;
  }

  // ---------------------------------------------------------------------
  // Applying

  /** `postsById[id]`: the last post with that id, as `Object.fromEntries`
      keeps the last entry of a repeated key. */
  function LastById(posts: seq<Post>, id: string): (r: Option<Post>)
    ensures r.Some? <==> exists i :: 0 <= i < |posts| && posts[i].id == id
    ensures r.Some? ==> r.value in posts && r.value.id == id
    ensures r.Some? ==> exists i :: 0 <= i < |posts| && posts[i] == r.value && LastWithId(posts, id, i)
  {
    if |posts| == 0 then None
    else if posts[|posts| - 1].id == id then
      assert LastWithId(posts, id, |posts| - 1);
      Some(posts[|posts| - 1])
    else
      var n := |posts| - 1;
      var r := LastById(posts[..n], id);
      assert forall i :: 0 <= i < n ==> posts[..n][i] == posts[i];
      if r.Some? then
        var i :| 0 <= i < n && posts[..n][i] == r.value && LastWithId(posts[..n], id, i);
        assert LastWithId(posts, id, i);
        r
      else r
  }

  /** Position `i` holds the id and no later position does. */
  predicate LastWithId(posts: seq<Post>, id: string, i: int) {
    0 <= i < |posts| && posts[i].id == id && forall j :: i < j < |posts| ==> posts[j].id != id
  }

  /** One more application on a post. */
  function Applied(p: Post): Post {
    p.(appliedCount := Some(OrZero(p.appliedCount) + 1))
  }

  function CountApplication(posts: seq<Post>, id: string): (r: seq<Post>)
    ensures |r| == |posts|
    ensures forall i :: 0 <= i < |posts| ==> r[i] == if posts[i].id == id then Applied(posts[i]) else posts[i]
  {
    seq(|posts|, i requires 0 <= i < |posts| => if posts[i].id == id then Applied(posts[i]) else posts[i])
  }

  /** Whether some notice already mentions the post title. */
  predicate Noticed(deadlines: seq<Notice>, title: string) {
    exists i :: 0 <= i < |deadlines| && Contains(deadlines[i].title, title)
  }

  /** The notice list after applying to `p`: a new notice in front unless
      the post has no deadline or a notice already mentions its title. */
  function AddNotice(deadlines: seq<Notice>, p: Post, author: string, noticeId: string): (r: seq<Notice>)
    ensures p.deadline.None? || p.deadline.value == "" || Noticed(deadlines, p.title) ==> r == deadlines
    ensures p.deadline.Some? && p.deadline.value != "" ==> Noticed(r, p.title)
    ensures p.deadline.Some? && p.deadline.value != "" && !Noticed(deadlines, p.title) ==>
      && |r| == |deadlines| + 1 && r[1..] == deadlines
      && r[0] == Notice(noticeId, "Apply: " + author + " — " + p.title, p.deadline.value, "Recruitment")
    ensures |r| <= |deadlines| + 1
  {
    if p.deadline.None? || p.deadline.value == "" then deadlines
    else if Noticed(deadlines, p.title) then deadlines
    else
      var n := Notice(noticeId, "Apply: " + author + " — " + p.title, p.deadline.value, "Recruitment");
      ContainsSuffix("Apply: " + author + " — ", p.title);
      assert Contains(([n] + deadlines)[0].title, p.title);
      [n] + deadlines
  }

  /** `submitApplication`: records the application, counts it on every post
      with that id, adds a deadline notice when needed and closes the
      dialog. `None` when no post has the id: `authorMeta` then reads a
      property of `undefined` and throws. */
  function SubmitApplication(s: FeedState, postId: string, form: map<string, JsValue>, appId: string,
                             noticeId: string, clubs: Directory, people: Directory): (r: Option<FeedState>)
    ensures r.None? <==> forall i :: 0 <= i < |s.posts| ==> s.posts[i].id != postId
    ensures r.Some? ==>
      && |r.value.posts| == |s.posts|
      && (forall i :: 0 <= i < |s.posts| && s.posts[i].id == postId ==>
            OrZero(r.value.posts[i].appliedCount) == OrZero(s.posts[i].appliedCount) + 1
            && r.value.posts[i] == s.posts[i].(appliedCount := r.value.posts[i].appliedCount))
      && (forall i :: 0 <= i < |s.posts| && s.posts[i].id != postId ==> r.value.posts[i] == s.posts[i])
      && |r.value.applications| == |s.applications| + 1
      && r.value.applications[1..] == s.applications
      && r.value.applications[0].postId == postId
      && r.value.applyPostId.None?
      && |s.deadlines| <= |r.value.deadlines| <= |s.deadlines| + 1
    ensures r.Some? ==>
      var p := LastById(s.posts, postId).value;
      var author := AuthorLabel(p, clubs, people);
      && r.value.applications[0] == Application(appId, postId, author + " — " + p.title, "Just now", "Submitted", form)
      && r.value.deadlines == AddNotice(s.deadlines, p, author, noticeId)
    ensures r.Some? ==> r.value == s.(posts := r.value.posts, applications := r.value.applications,
                                      deadlines := r.value.deadlines, applyPostId := None)
  {
    var found := LastById(s.posts, postId);
    if found.None? then None
    else
      var p := found.value;
      var author := AuthorLabel(p, clubs, people);
      var app := Application(appId, postId, author + " — " + p.title, "Just now", "Submitted", form);
      Some(s.(posts := CountApplication(s.posts, postId),
              applications := [app] + s.applications,
              deadlines := AddNotice(s.deadlines, p, author, noticeId),
              applyPostId := None))
  }

  /** Applying twice to the same post adds at most one deadline notice. */
  lemma ApplyTwiceOneNotice(s: FeedState, postId: string, form: map<string, JsValue>, form': map<string, JsValue>,
                            appId: string, appId': string, noticeId: string, noticeId': string,
                            clubs: Directory, people: Directory)
    requires SubmitApplication(s, postId, form, appId, noticeId, clubs, people).Some?
    ensures var t := SubmitApplication(s, postId, form, appId, noticeId, clubs, people).value;
      var u := SubmitApplication(t, postId, form', appId', noticeId', clubs, people);
      u.Some? && u.value.deadlines == t.deadlines
  {
    var t := SubmitApplication(s, postId, form, appId, noticeId, clubs, people).value;
    var p := LastById(s.posts, postId).value;
    var q := LastById(t.posts, postId).value;
    LastByIdCounted(s.posts, postId);
    assert q.title == p.title && q.deadline == p.deadline;
  }

  /** Counting an application keeps the post found by id, apart from its
      count. */
  lemma {:induction false} LastByIdCounted(posts: seq<Post>, id: string)
    requires LastById(posts, id).Some?
    ensures LastById(CountApplication(posts, id), id) == Some(Applied(LastById(posts, id).value))
    decreases |posts|
  {
    var n := |posts| - 1;
    var c := CountApplication(posts, id);
    if posts[n].id != id {
      assert c[n] == posts[n];
      LastByIdDrop(posts, id);
      LastByIdDrop(c, id);
      CountApplicationPrefix(posts, id);
      LastByIdCounted(posts[..n], id);
    } else {
      assert c[n] == Applied(posts[n]);
      LastByIdHit(posts, id);
      LastByIdHit(c, id);
    }
  }

  lemma LastByIdDrop(posts: seq<Post>, id: string)
    requires |posts| > 0 && posts[|posts| - 1].id != id
    ensures LastById(posts, id) == LastById(posts[..|posts| - 1], id)
  {
  }

  lemma LastByIdHit(posts: seq<Post>, id: string)
    requires |posts| > 0 && posts[|posts| - 1].id == id
    ensures LastById(posts, id) == Some(posts[|posts| - 1])
  {
  }

  lemma CountApplicationPrefix(posts: seq<Post>, id: string)
    requires |posts| > 0
    ensures CountApplication(posts, id)[..|posts| - 1] == CountApplication(posts[..|posts| - 1], id)
  {
  }

  // ---------------------------------------------------------------------
  // The timetable list

  datatype TimetableItem = TimetableItem(id: string, tag: string, title: string, date: string,
                                         kind: string, byline: string)

  /** An item passes when the tag filter is empty or occurs in its tag,
      ignoring case, and the type filter is empty or equals its type. */
  predicate ItemPasses(it: TimetableItem, tagFilter: string, typeFilter: string) {
    (tagFilter == "" || Contains(ToLower(it.tag), ToLower(tagFilter)))
    && (typeFilter == "" || it.kind == typeFilter)
  }

  function ItemFilter(tagFilter: string, typeFilter: string): TimetableItem -> bool {
    it => ItemPasses(it, tagFilter, typeFilter)
  }

  /** The `TimetableView` list filter. */
  function TimetableFilter(items: seq<TimetableItem>, tagFilter: string, typeFilter: string): (r: seq<TimetableItem>)
    ensures Subseq(r, items)
    ensures forall i :: 0 <= i < |r| ==> ItemPasses(r[i], tagFilter, typeFilter)
    ensures forall i :: 0 <= i < |items| && ItemPasses(items[i], tagFilter, typeFilter) ==> items[i] in r
    ensures tagFilter == "" && typeFilter == "" ==> r == items
    ensures forall x :: multiset(r)[x] == if ItemPasses(x, tagFilter, typeFilter) then multiset(items)[x] else 0
  {
    FilterIsSubseq(ItemFilter(tagFilter, typeFilter), items);
    forall x { FilterMultiset(ItemFilter(tagFilter, typeFilter), items, x); }
    if tagFilter == "" && typeFilter == "" then
      FilterAll(ItemFilter(tagFilter, typeFilter), items);
      Filter(ItemFilter(tagFilter, typeFilter), items)
    else
      Filter(ItemFilter(tagFilter, typeFilter), items)
  }

  /** The tag filter ignores case on both sides. */
  lemma TagFilterIgnoresCase(it: TimetableItem, tagFilter: string, typeFilter: string)
    ensures ItemPasses(it, tagFilter, typeFilter) <==> ItemPasses(it, ToLower(tagFilter), typeFilter)
  {
    ToLowerIdempotent(tagFilter);
    assert tagFilter == "" <==> ToLower(tagFilter) == "";
  }

  lemma ToLowerIdempotent(s: string)
    ensures ToLower(ToLower(s)) == ToLower(s)
  {
  }
}
