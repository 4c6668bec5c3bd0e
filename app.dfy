/** The page script's pure helpers and rules (frontend/js/app.js): text
    truncation, the relative-time label, the pagination controls, the
    checks run before a form is sent, and which actions are shown to whom.
    The DOM, `fetch` and the toasts are outside the model: each rule is
    the value it computes. */
module App {
  import opened Common
  import opened Text
  import opened Query
  import PostModel
  import TopicModel
  import PostRoutes
  import TopicRoutes
  import Auth
  import Http

  // ---------------------------------------------------------------- truncate

  /** `truncate(text, length)`: the text itself when it fits, otherwise its
      first `length` characters (none for a negative length, as
      `substring` clamps) followed by "...". */
  function Truncate(text: string, length: int): (r: string)
    ensures |text| <= length ==> r == text
    ensures |text| > length ==>
      var keep := if length < 0 then 0 else length;
      |r| == keep + 3 && r[..keep] == text[..keep] && r[keep..] == "..."
  {
    if |text| <= length then text
    else (if length < 0 then "" else text[..length]) + "..."
  }

  /** A truncated text is never longer than the limit plus the ellipsis,
      and always starts the same way as the original. */
  lemma TruncateBound(text: string, length: int)
    requires length >= 0
    ensures |Truncate(text, length)| <= length + 3
    ensures var r := Truncate(text, length);
      (r == text) || (|r| >= 3 && text[..|r| - 3] == r[..|r| - 3] && r[|r| - 3..] == "...")
  {
  }

  /** Truncating an already truncated text changes nothing. */
  lemma TruncateIdempotent(text: string, length: int)
    ensures Truncate(Truncate(text, length), length) == Truncate(text, length)
  {
    var r := Truncate(text, length);
    if |text| > length {
      var keep := if length < 0 then 0 else length;
      assert |r| > length;
      assert Truncate(r, length) == r[..keep] + "...";
      assert r == r[..keep] + r[keep..];
    }
  }

  // ------------------------------------------------------------- time ago

  datatype Interval = Interval(name: string, seconds: nat)

  /** The `intervals` object, in its insertion order, largest unit first. */
  const Intervals: seq<Interval> := [
    Interval("year", 31536000),
    Interval("month", 2592000),
    Interval("week", 604800),
    Interval("day", 86400),
    Interval("hour", 3600),
    Interval("minute", 60)
  ]

  /** Every unit is positive and each is longer than the next. */
  lemma IntervalsDescending()
    ensures forall i :: 0 <= i < |Intervals| ==> Intervals[i].seconds > 0
    ensures forall i, j :: 0 <= i < j < |Intervals| ==> Intervals[i].seconds > Intervals[j].seconds
  {
  }

  predicate IsDigit(c: char) {
    '0' <= c <= '9'
  }

  function DigitChar(d: nat): (c: char)
    requires d < 10
    ensures IsDigit(c) && c as int - '0' as int == d
  {
    ('0' as int + d) as char
  }

  /** The decimal form of a number, as a template literal writes it. */
  function NatToString(n: nat): (s: string)
    ensures |s| >= 1
    ensures forall k :: 0 <= k < |s| ==> IsDigit(s[k])
    ensures |s| == 1 || s[0] != '0'
    decreases n
  {
    if n < 10 then [DigitChar(n)] else NatToString(n / 10) + [DigitChar(n % 10)]
  }

  /** The number a string of digits denotes. */
  function DigitsValue(s: string): nat
    requires forall k :: 0 <= k < |s| ==> IsDigit(s[k])
  {
    if |s| == 0 then 0
    else
      assert IsDigit(s[|s| - 1]);
      DigitsValue(s[..|s| - 1]) * 10 + (s[|s| - 1] as int - '0' as int)
  }

  /** Reading back the decimal form gives the number. */
  lemma {:induction false} NatToStringRoundTrip(n: nat)
    ensures DigitsValue(NatToString(n)) == n
    decreases n
  {
    if n >= 10 {
      var s := NatToString(n);
      assert s[..|s| - 1] == NatToString(n / 10);
      NatToStringRoundTrip(n / 10);
    }
  }

  /** `${interval} ${unit}${interval !== 1 ? 's' : ''} ago`. */
  function Phrase(count: nat, unit: string): (r: string)
    ensures |r| >= |NatToString(count)| + 5
    ensures r[..|NatToString(count)|] == NatToString(count)
    ensures count == 1 ==> r == "1 " + unit + " ago"
    ensures count != 1 ==> r == NatToString(count) + " " + unit + "s ago"
    ensures count != 1 ==> r[|r| - 5..] == "s ago"
  {
    NatToString(count) + " " + unit + (if count != 1 then "s" else "") + " ago"
  }

  /** The position of the first interval, from `from` on, that fits into
      `seconds`, if any. */
  function FirstFitFrom(seconds: int, from: nat): (r: Option<nat>)
    requires from <= |Intervals|
    ensures r.Some? ==> from <= r.value < |Intervals| && Intervals[r.value].seconds <= seconds
    ensures r.Some? ==> forall j :: from <= j < r.value ==> seconds < Intervals[j].seconds
    ensures r.None? ==> forall j :: from <= j < |Intervals| ==> seconds < Intervals[j].seconds
    decreases |Intervals| - from
  {
    if from == |Intervals| then None
    else if Intervals[from].seconds <= seconds then Some(from)
    else FirstFitFrom(seconds, from + 1)
  }

  /** The largest unit that fits into `seconds`. */
  function UnitFor(seconds: int): (r: Option<nat>)
    ensures r.Some? ==> r.value < |Intervals| && Intervals[r.value].seconds <= seconds
    ensures r.Some? ==> forall j :: 0 <= j < r.value ==> seconds < Intervals[j].seconds
    ensures r.None? ==> forall j :: 0 <= j < |Intervals| ==> seconds < Intervals[j].seconds
  {
    FirstFitFrom(seconds, 0)
  }

  /** What `formatTimeAgo` shows for an age of `elapsedMs` milliseconds:
      the whole seconds (rounded down) counted in the largest unit that
      fits, or "Just now" when not even a minute has passed. */
  function TimeAgo(elapsedMs: int): string {
    var seconds := elapsedMs / 1000;
    match UnitFor(seconds)
    case None => "Just now"
    case Some(k) => Phrase(seconds / Intervals[k].seconds, Intervals[k].name)
  }

  /** For a positive divisor, the quotient is at least one exactly when
      the dividend reaches the divisor. */
  lemma QuotientAtLeastOne(a: int, b: int)
    requires b > 0
    ensures a / b >= 1 <==> a >= b
  {
    var q := a / b;
    var m := a % b;
    assert a == b * q + m && 0 <= m < b;
    if q >= 1 {
      assert b * (q - 1) >= 0;
      assert b * q == b * (q - 1) + b;
    } else {
      assert b * (-q) >= 0;
    }
  }

  /** `formatTimeAgo`: walks the intervals from the largest and returns at
      the first whose quotient is at least one. */
  method FormatTimeAgo(elapsedMs: int) returns (text: string)
    ensures text == TimeAgo(elapsedMs)
  {
    var seconds := elapsedMs / 1000;
    var k := 0;
    while k < |Intervals|
      invariant 0 <= k <= |Intervals|
      invariant forall j :: 0 <= j < k ==> seconds < Intervals[j].seconds
    {
      var secondsInUnit := Intervals[k].seconds;
      var interval := seconds / secondsInUnit;
      QuotientAtLeastOne(seconds, secondsInUnit);
      if interval >= 1 {
        text := NatToString(interval) + " " + Intervals[k].name + (if interval != 1 then "s" else "") + " ago";
        assert UnitFor(seconds) == Some(k);
        return;
      }
      k := k + 1;
    }
    text := "Just now";
  }

  /** Under a minute (including a time in the future) reads "Just now";
      from a minute on, the label counts at least one of its unit and less
      than one of every larger unit. */
  lemma TimeAgoLargestUnit(elapsedMs: int)
    ensures TimeAgo(elapsedMs) == "Just now" <==> elapsedMs / 1000 < 60
    ensures elapsedMs / 1000 >= 60 ==>
      var seconds := elapsedMs / 1000;
      var k := UnitFor(seconds).value;
      seconds / Intervals[k].seconds >= 1 &&
      forall j :: 0 <= j < k ==> seconds / Intervals[j].seconds == 0
  {
    var seconds := elapsedMs / 1000;
    match UnitFor(seconds)
    case None =>
      assert seconds < Intervals[5].seconds;
    case Some(k) =>
      var count := seconds / Intervals[k].seconds;
      QuotientAtLeastOne(seconds, Intervals[k].seconds);
      var r := Phrase(count, Intervals[k].name);
      assert r[0] != 'J' by {
        assert r[..|NatToString(count)|] == NatToString(count);
        assert IsDigit(r[0]);
      }
      forall j | 0 <= j < k
        ensures seconds / Intervals[j].seconds == 0
      {
        assert 0 <= seconds < Intervals[j].seconds;
      }
  }

  // ------------------------------------------------------------ pagination

  /** What `displayPagination` renders: the two buttons, each disabled or
      asking for its target page, and the "Page x of y" label. */
  datatype Controls = Controls(prevDisabled: bool, prevTarget: int, nextDisabled: bool, nextTarget: int,
                               shownPage: int, shownTotal: int)

  /** `displayPagination`: nothing for a single page; otherwise Previous
      is off on the first page and Next on the last, and each asks for
      the neighbouring page. */
  function Pagination(currentPage: int, totalPages: int): (r: Option<Controls>)
    ensures r.None? <==> totalPages <= 1
    ensures r.Some? ==>
      (r.value.prevDisabled <==> currentPage == 1) && r.value.prevTarget == currentPage - 1 &&
      (r.value.nextDisabled <==> currentPage == totalPages) && r.value.nextTarget == currentPage + 1 &&
      r.value.shownPage == currentPage && r.value.shownTotal == totalPages
  {
    if totalPages <= 1 then None
    else Some(Controls(currentPage == 1, currentPage - 1, currentPage == totalPages, currentPage + 1,
                       currentPage, totalPages))
  }

  /** On a page the topic listing can actually return, Next is enabled
      exactly when the listing says there are more topics. */
  lemma NextAgreesWithHasMore(topics: seq<TopicModel.Topic>, page: Option<nat>, limit: Option<nat>,
                              category: Option<string>, search: Option<string>)
    requires var r := TopicRoutes.ListTopics(topics, page, limit, category, search);
      1 <= r.page.currentPage <= r.page.totalPages && r.page.totalPages > 1
    ensures var r := TopicRoutes.ListTopics(topics, page, limit, category, search);
      var c := Pagination(r.page.currentPage, r.page.totalPages);
      c.Some? && (!c.value.nextDisabled <==> r.hasMore)
  {
    var r := TopicRoutes.ListTopics(topics, page, limit, category, search);
    HasMoreIff(r.page.total, ParamOr(page, 1), ParamOr(limit, 10));
  }

  /** Past the last page the two disagree: Next stays enabled although
      the listing reports nothing more. */
  lemma NextEnabledPastLastPage(currentPage: int, totalPages: int)
    requires totalPages > 1 && currentPage > totalPages
    ensures Pagination(currentPage, totalPages).Some? && !Pagination(currentPage, totalPages).value.nextDisabled
    ensures !(currentPage < totalPages)
  {
  }

  /** Following Previous and Next from a page strictly inside the range
      stays inside it. */
  lemma TargetsStayInRange(currentPage: int, totalPages: int)
    requires totalPages > 1 && 1 <= currentPage <= totalPages
    ensures var c := Pagination(currentPage, totalPages).value;
      (!c.prevDisabled ==> 1 <= c.prevTarget <= totalPages) &&
      (!c.nextDisabled ==> 1 <= c.nextTarget <= totalPages)
  {
  }

  // ------------------------------------------------------------ form guards

  datatype TopicBody = TopicBody(title: string, category: string, description: string)

  /** `handleCreateTopic`: title and description trimmed, the category as
      selected; both trimmed fields must be non-empty. */
  function TopicFormGuard(titleField: string, categoryField: string, descriptionField: string)
    : (r: Guard<TopicBody>)
    ensures r.Submit? <==> Trim(titleField) != "" && Trim(descriptionField) != ""
    ensures r.Submit? ==> r.body == TopicBody(Trim(titleField), categoryField, Trim(descriptionField))
    ensures r.Refuse? ==> r.message == "Please fill in all required fields"
  {
    var title := Trim(titleField);
    var description := Trim(descriptionField);
    if title == "" || description == "" then Refuse("Please fill in all required fields")
    else Submit(TopicBody(title, categoryField, description))
  }

  /** A topic the form sends is never refused by the create route for a
      missing title or description, and is stored with exactly the text
      the user typed less the surrounding spaces. */
  lemma TopicFormPassesCreate(titleField: string, categoryField: string, descriptionField: string)
    requires TopicFormGuard(titleField, categoryField, descriptionField).Submit?
    ensures var b := TopicFormGuard(titleField, categoryField, descriptionField).body;
      Present(Some(b.title)) && Present(Some(b.description)) &&
      b.title == Trim(titleField) && Trim(b.title) == b.title
  {
    TrimIdempotent(titleField);
  }

  /** A form of spaces alone is refused. */
  lemma BlankTopicRefused(titleField: string, categoryField: string, descriptionField: string)
    requires forall k :: 0 <= k < |titleField| ==> IsSpace(titleField[k])
    ensures TopicFormGuard(titleField, categoryField, descriptionField).Refuse?
  {
    TrimEmptyIffBlank(titleField);
  }

  datatype PostBody = PostBody(content: string, topicId: TopicId, parentPostId: Option<PostId>)

  /** `handleCreatePost`: the trimmed content must be non-empty; it goes
      to the open topic as a top-level post. */
  function PostFormGuard(contentField: string, currentTopic: TopicId): (r: Guard<PostBody>)
    ensures r.Submit? <==> Trim(contentField) != ""
    ensures r.Submit? ==> r.body == PostBody(Trim(contentField), currentTopic, None)
    ensures r.Refuse? ==> r.message == "Please enter your post content"
  {
    var content := Trim(contentField);
    if content == "" then Refuse("Please enter your post content")
    else Submit(PostBody(content, currentTopic, None))
  }

  /** `submitReply`: the same check with its own message; the body names
      the post replied to. */
  function ReplyGuard(contentField: string, currentTopic: TopicId, parentPostId: PostId)
    : (r: Guard<PostBody>)
    ensures r.Submit? <==> Trim(contentField) != ""
    ensures r.Submit? ==> r.body == PostBody(Trim(contentField), currentTopic, Some(parentPostId))
    ensures r.Refuse? ==> r.message == "Please enter your reply"
  {
    var content := Trim(contentField);
    if content == "" then Refuse("Please enter your reply")
    else Submit(PostBody(content, currentTopic, Some(parentPostId)))
  }

  /** A post or reply the page sends always carries content and a topic,
      so the create route never answers it with 400; and a reply differs
      from a post only in naming its parent. */
  lemma PostFormsPassCreateCheck(contentField: string, currentTopic: TopicId, parentPostId: PostId)
    ensures PostFormGuard(contentField, currentTopic).Submit? <==>
      ReplyGuard(contentField, currentTopic, parentPostId).Submit?
    ensures PostFormGuard(contentField, currentTopic).Submit? ==>
      Present(Some(PostFormGuard(contentField, currentTopic).body.content)) &&
      ReplyGuard(contentField, currentTopic, parentPostId).body ==
        PostFormGuard(contentField, currentTopic).body.(parentPostId := Some(parentPostId))
  {
  }

  /** `reportPost`: the prompt's answer (None when cancelled) must be
      non-blank; the trimmed reason is sent. */
  function ReportPrompt(reason: Option<string>): (r: Guard<string>)
    ensures r.Submit? <==> reason.Some? && Trim(reason.value) != ""
    ensures r.Submit? ==> r.body == Trim(reason.value)
    ensures r.Refuse? ==> r.message == "Report reason is required"
  {
    if reason.None? || reason.value == "" || Trim(reason.value) == "" then Refuse("Report reason is required")
    else Submit(Trim(reason.value))
  }

  /** The page asks for a reason under the same message the report route
      uses, and only ever sends a reason the route accepts. */
  lemma ReportPromptAgreesWithRoute(reason: Option<string>)
    ensures ReportPrompt(reason).Submit? ==> Present(Some(ReportPrompt(reason).body))
    ensures ReportPrompt(reason).Refuse? ==> ReportPrompt(reason).message == "Report reason is required"
    ensures !Present(reason) ==> ReportPrompt(reason).Refuse?
  {
  }

  // ------------------------------------------------------------- visibility

  /** The Lock and Pin buttons: moderators and admins only. */
  predicate ShowLockPin(role: Role) {
    role == Moderator || role == Admin
  }

  /** The Delete Topic button: the author, or staff. */
  predicate ShowDeleteTopic(isAuthor: bool, role: Role) {
    isAuthor || role == Moderator || role == Admin
  }

  /** The post form is disabled on a locked topic, except for staff. */
  predicate PostFormDisabled(isLocked: bool, role: Role) {
    isLocked && !(role == Moderator || role == Admin)
  }

  /** Report: anyone but the author. */
  predicate ShowReport(isAuthor: bool) {
    !isAuthor
  }

  /** Delete: the author, or staff. */
  predicate ShowDeletePost(isAuthor: bool, role: Role) {
    isAuthor || role == Moderator || role == Admin
  }

  /** Approve: staff, on a flagged post. */
  predicate ShowApprove(role: Role, isModerated: bool) {
    (role == Moderator || role == Admin) && isModerated
  }

  /** The Lock and Pin buttons are shown exactly to the users the lock and
      pin routes let through. */
  lemma LockPinShownIffAllowed(role: Role)
    ensures ShowLockPin(role) <==> Auth.ModeratorGate(role) == Http.Next
  {
  }

  /** The Delete buttons are shown exactly to the users the models let
      delete. */
  lemma DeleteShownIffAllowed(p: PostModel.Post, t: TopicModel.Topic, viewer: UserId, role: Role)
    ensures ShowDeletePost(p.author == viewer, role) <==> PostModel.CanDelete(p, viewer, role)
    ensures ShowDeleteTopic(t.author == viewer, role) <==> TopicModel.CanDelete(t, viewer, role)
  {
  }

  /** Approve is shown only to users the moderate route lets through, and
      never on a post that is not flagged. */
  lemma ApproveShownOnlyToStaff(role: Role, isModerated: bool)
    ensures ShowApprove(role, isModerated) ==> Auth.ModeratorGate(role) == Http.Next
    ensures !isModerated ==> !ShowApprove(role, isModerated)
  {
  }

  /** For ordinary members the form is disabled exactly when the create
      route would refuse the post as locked. */
  lemma MemberFormMatchesRoute(t: TopicModel.Topic)
    ensures PostFormDisabled(t.isLocked, Member) <==> !PostRoutes.AcceptsPosts(t)
  {
  }

  /** For staff the form stays enabled on a locked topic, yet the create
      route refuses every post there whatever the role. */
  lemma StaffFormOpenOnLockedTopic(t: TopicModel.Topic, role: Role)
    requires t.isLocked && IsStaff(role)
    ensures !PostFormDisabled(t.isLocked, role)
    ensures !PostRoutes.AcceptsPosts(t)
  {
  }
}
