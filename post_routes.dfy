/** The post routes (backend/routes/posts.js). The two listings are
    functions of the stored posts; the handlers that change documents are
    methods on the store, each built from a pure transition of one record
    (`Edited`, `SoftDeleted`, `WithLikeToggled`, `WithReport`, `Approved`)
    and the counter updates of the topic (`WithNewPost`, `WithPostRemoved`).
    Every handler runs after authentication: `actor` is the user attached
    to the request, and `stamp` is the content filter's verdict. */
module PostRoutes {
  import opened Common
  import opened Query
  import opened PostModel
  import TopicModel
  import opened Store
  import opened Http
  import Moderation
  import Auth

  // ---------------------------------------------------------------------
  // Threaded listing (GET /topic/:topicId)
  // ---------------------------------------------------------------------

  /** The listing's filter: a post of the topic, not deleted, with no parent. */
  predicate IsTopLevelIn(p: Post, topic: TopicId) {
    p.topic == topic && p.parentPost.None? && !p.isDeleted
  }

  function TopLevel(posts: seq<Post>, topic: TopicId): seq<Post> {
    Filter(posts, p => IsTopLevelIn(p, topic))
  }

  /** The replies' filter: a live post whose `parentPost` is `id`. */
  predicate IsReplyTo(x: Post, id: PostId) {
    x.parentPost == Some(id) && !x.isDeleted
  }

  function RepliesTo(posts: seq<Post>, id: PostId): seq<Post> {
    Filter(posts, x => IsReplyTo(x, id))
  }

  /** `sort({ createdAt: 1 })`. */
  function ByCreatedAt(p: Post): Key {
    Key(p.createdAt, 0)
  }

  /** A listed post with its replies; a reply is a plain post and carries no
      replies of its own. */
  datatype Thread = Thread(post: Post, replies: seq<Post>)

  /** The listed posts of a page of threads, in order. */
  function PostsOf(items: seq<Thread>): (r: seq<Post>)
    ensures |r| == |items|
    ensures forall i :: 0 <= i < |r| ==> r[i] == items[i].post
  {
    seq(|items|, i requires 0 <= i < |items| => items[i].post)
  }

  /** The thread listing: a page (default 1, 20 per page) of the topic's
      live top-level posts, oldest first, each with exactly its live
      replies; the counts cover the top-level posts only. */
  function ListThread(posts: seq<Post>, topic: TopicId, page: Option<nat>, limit: Option<nat>): (r: Page<Thread>)
    ensures r.currentPage == ParamOr(page, 1)
    ensures r.total == |TopLevel(posts, topic)| && r.totalPages == CeilDiv(r.total, ParamOr(limit, 20))
    ensures |r.items| <= ParamOr(limit, 20)
    ensures forall i :: 0 <= i < |r.items| ==> r.items[i].post in posts && IsTopLevelIn(r.items[i].post, topic)
    ensures forall i, x :: 0 <= i < |r.items| ==>
      (x in r.items[i].replies <==> x in posts && IsReplyTo(x, r.items[i].post.id))
    ensures forall i, j :: 0 <= i < j < |r.items| ==> r.items[i].post.createdAt <= r.items[j].post.createdAt
    ensures IsSortedPage(PostsOf(r.items), TopLevel(posts, topic), ParamOr(page, 1), ParamOr(limit, 20), ByCreatedAt)
  {
    var top := TopLevel(posts, topic);
    var pg := OldestFirstPage(top, ParamOr(page, 1), ParamOr(limit, 20));
    var threads := WithReplies(posts, pg.items);
    assert PostsOf(threads) == pg.items;
    Page(threads, pg.currentPage, pg.totalPages, pg.total)
  }

  /** A page of posts sorted oldest first. */
  function OldestFirstPage(top: seq<Post>, page: nat, limit: nat): (r: Page<Post>)
    requires page >= 1 && limit >= 1
    ensures r.currentPage == page && r.total == |top| && r.totalPages == CeilDiv(|top|, limit)
    ensures |r.items| <= limit
    ensures forall i :: 0 <= i < |r.items| ==> r.items[i] in top
    ensures forall i, j :: 0 <= i < j < |r.items| ==> r.items[i].createdAt <= r.items[j].createdAt
    ensures IsSortedPage(r.items, top, page, limit, ByCreatedAt)
  {
    var pg := SortedPaginate(top, page, limit, ByCreatedAt);
    assert forall i, j :: 0 <= i < j < |pg.items| ==> KeyLe(ByCreatedAt(pg.items[i]), ByCreatedAt(pg.items[j]));
    pg
  }

  /** Each listed post paired with its replies. */
  function WithReplies(posts: seq<Post>, items: seq<Post>): (r: seq<Thread>)
    ensures |r| == |items|
    ensures forall i :: 0 <= i < |r| ==> r[i].post == items[i]
    ensures forall i, x :: 0 <= i < |r| ==> (x in r[i].replies <==> x in posts && IsReplyTo(x, items[i].id))
  {
    seq(|items|, i requires 0 <= i < |items| => Thread(items[i], RepliesTo(posts, items[i].id)))
  }

  /** In a well-formed store, listed posts are at level 0 and every
      attached reply at level 1: nesting is one level deep. */
  lemma ListedRepliesAreLevelOne(posts: seq<Post>, topicCount: nat, topic: TopicId, page: Option<nat>, limit: Option<nat>)
    requires WellFormed(posts, topicCount)
    ensures var r := ListThread(posts, topic, page, limit);
      forall i, x :: 0 <= i < |r.items| && x in r.items[i].replies ==>
        r.items[i].post.level == 0 && x.level == 1
  {
    var r := ListThread(posts, topic, page, limit);
    forall i, x | 0 <= i < |r.items| && x in r.items[i].replies
      ensures r.items[i].post.level == 0 && x.level == 1
    {
      var p := r.items[i].post;
      var k :| 0 <= k < |posts| && posts[k] == p;
      assert PostOk(posts, k, topicCount);
      var j :| 0 <= j < |posts| && posts[j] == x;
      assert PostOk(posts, j, topicCount);
    }
  }

  // ---------------------------------------------------------------------
  // Record transitions
  // ---------------------------------------------------------------------

  /** The edit (lines 176-184): the content is replaced only when a
      non-empty one is sent, a flagged edit marks the post moderated, and
      `updatedAt` moves to now. Nothing else changes. */
  function Edited(p: Post, content: Option<string>, stamp: Moderation.Stamp, now: Time): (r: Post)
    ensures r.content == if Present(content) then content.value else p.content
    ensures r.isModerated <==> p.isModerated || stamp.Flagged?
    ensures r.moderationReason == if stamp.Flagged? then stamp.reason else p.moderationReason
    ensures r.updatedAt == now
    ensures r.(content := p.content, isModerated := p.isModerated,
               moderationReason := p.moderationReason, updatedAt := p.updatedAt) == p
  {
    var withContent := if Present(content) then p.(content := content.value) else p;
    var flagged := if stamp.Flagged? then withContent.(isModerated := true, moderationReason := stamp.reason)
                   else withContent;
    flagged.(updatedAt := now)
  }

  /** An edit can set `isModerated` but never clear it. */
  lemma EditNeverClearsModeration(p: Post, content: Option<string>, stamp: Moderation.Stamp, now: Time)
    requires p.isModerated
    ensures Edited(p, content, stamp, now).isModerated
  {
  }

  /** The soft delete (lines 225-227): the row stays, marked deleted with
      when and by whom. */
  function SoftDeleted(p: Post, who: UserId, now: Time): (r: Post)
    ensures r.isDeleted && r.deletedAt == Some(now) && r.deletedBy == Some(who)
    ensures r.(isDeleted := p.isDeleted, deletedAt := p.deletedAt, deletedBy := p.deletedBy) == p
  {
    p.(isDeleted := true, deletedAt := Some(now), deletedBy := Some(who))
  }

  /** Deleting an already deleted post is not refused: the second delete
      overwrites when and by whom. */
  lemma SoftDeleteOverwrites(p: Post, first: UserId, t1: Time, second: UserId, t2: Time)
    ensures SoftDeleted(SoftDeleted(p, first, t1), second, t2) == SoftDeleted(p, second, t2)
  {
  }

  /** `likes.filter(id => id !== userId)`: every occurrence of the user
      removed, the others kept in order. */
  function Without(s: seq<UserId>, u: UserId): (r: seq<UserId>)
    ensures forall x :: x in r <==> x in s && x != u
    ensures |r| <= |s|
    ensures u !in s ==> r == s
  {
    if s == [] then []
    else if s[0] == u then Without(s[1..], u)
    else [s[0]] + Without(s[1..], u)
  }

  lemma {:induction false} WithoutKeepsDistinct(s: seq<UserId>, u: UserId)
    requires Distinct(s)
    ensures Distinct(Without(s, u))
  {
    if s != [] {
      WithoutKeepsDistinct(s[1..], u);
      if s[0] != u {
        var rest := Without(s[1..], u);
        assert s[0] !in s[1..];
        var r := [s[0]] + rest;
        forall i, j | 0 <= i < j < |r| ensures r[i] != r[j] {
          if i == 0 {
            assert r[j] in rest;
          } else {
            assert r[i] == rest[i - 1] && r[j] == rest[j - 1];
          }
        }
      }
    }
  }

  /** Removing the user from a list where it occurs once leaves the other
      members with their multiplicities. */
  lemma {:induction false} WithoutMultiset(s: seq<UserId>, u: UserId)
    ensures multiset(Without(s, u)) == multiset(s)[u := 0]
  {
    if s != [] {
      WithoutMultiset(s[1..], u);
      assert s == [s[0]] + s[1..];
    }
  }

  lemma {:induction false} DistinctOnce(s: seq<UserId>, u: UserId)
    requires Distinct(s) && u in s
    ensures multiset(s)[u] == 1
  {
    assert s == [s[0]] + s[1..];
    if s[0] == u {
      assert u !in s[1..];
    } else {
      DistinctOnce(s[1..], u);
    }
  }

  lemma AppendKeepsDistinct(s: seq<UserId>, u: UserId)
    requires Distinct(s) && u !in s
    ensures Distinct(s + [u])
  {
    var r := s + [u];
    forall i, j | 0 <= i < j < |r| ensures r[i] != r[j] {
      if j == |s| {
        assert r[i] == s[i];
      } else {
        assert r[i] == s[i] && r[j] == s[j];
      }
    }
  }

  /** The like toggle (lines 262-279): a user who has liked is removed
      everywhere in `likes`, any other user is appended, and `likeCount`
      is recomputed from the list. */
  function WithLikeToggled(p: Post, u: UserId): (r: Post)
    ensures HasLiked(r, u) <==> !HasLiked(p, u)
    ensures r.likeCount == |r.likes|
    ensures HasLiked(p, u) ==> forall x :: x in r.likes <==> x in p.likes && x != u
    ensures !HasLiked(p, u) ==> r.likes == p.likes + [u]
    ensures r.(likes := p.likes, likeCount := p.likeCount) == p
    ensures RecordOk(p) ==> RecordOk(r)
  {
    HasLikedIsMembership(p, u);
    var likes := if HasLiked(p, u) then Without(p.likes, u) else p.likes + [u];
    var r := p.(likes := likes, likeCount := |likes|);
    HasLikedIsMembership(r, u);
    assert RecordOk(p) ==> RecordOk(r) by {
      if RecordOk(p) {
        if HasLiked(p, u) {
          WithoutKeepsDistinct(p.likes, u);
        } else {
          AppendKeepsDistinct(p.likes, u);
        }
      }
    }
    r
  }

  /** Liking and then unliking restores the post exactly. */
  lemma ToggleTwiceFromNotLiked(p: Post, u: UserId)
    requires RecordOk(p) && !HasLiked(p, u)
    ensures WithLikeToggled(WithLikeToggled(p, u), u) == p
  {
    HasLikedIsMembership(p, u);
    var once := WithLikeToggled(p, u);
    assert Without(once.likes, u) == p.likes by {
      WithoutAppend(p.likes, u);
    }
  }

  /** `filter` then `push` of the same user: the user goes to the end. */
  lemma {:induction false} WithoutAppend(s: seq<UserId>, u: UserId)
    requires u !in s
    ensures Without(s + [u], u) == s
  {
    if s == [] {
      assert [u][1..] == [];
    } else {
      assert (s + [u])[1..] == s[1..] + [u];
      WithoutAppend(s[1..], u);
    }
  }

  /** Unliking and then liking again restores the same likes and count,
      but only as a multiset: the user moves to the end of the list. */
  lemma ToggleTwiceFromLiked(p: Post, u: UserId)
    requires RecordOk(p) && HasLiked(p, u)
    ensures var q := WithLikeToggled(WithLikeToggled(p, u), u);
      multiset(q.likes) == multiset(p.likes) && q.likeCount == p.likeCount &&
      q.likes == Without(p.likes, u) + [u] && q.(likes := p.likes) == p
  {
    HasLikedIsMembership(p, u);
    var once := WithLikeToggled(p, u);
    HasLikedIsMembership(once, u);
    var q := WithLikeToggled(once, u);
    WithoutMultiset(p.likes, u);
    DistinctOnce(p.likes, u);
    assert multiset(q.likes) == multiset(p.likes)[u := 0] + multiset{u};
    assert multiset(q.likes) == multiset(p.likes);
    assert |q.likes| == |multiset(q.likes)|;
  }

  /** Two toggles by a user who had liked do not give back the same list
      when someone liked after them. */
  lemma ToggleTwiceReorders(p: Post)
    requires p.likes == [1, 2] && p.likeCount == 2
    ensures WithLikeToggled(WithLikeToggled(p, 1), 1).likes == [2, 1]
  {
    assert HasLiked(p, 1) by {
      assert p.likes[0] == 1;
    }
    var once := WithLikeToggled(p, 1);
    assert once.likes == [2] by {
      assert Without([2], 1) == [2];
    }
    assert !HasLiked(once, 1);
  }

  /** `reports.some(r => r.reportedBy === userId)`. */
  predicate AlreadyReported(p: Post, u: UserId) {
    exists i :: 0 <= i < |p.reports| && p.reports[i].reportedBy == u
  }

  /** Filing a report (lines 335-340): one entry appended and the post marked reported. */
  function WithReport(p: Post, u: UserId, reason: string, now: Time): (r: Post)
    ensures r.reports == p.reports + [Report(u, reason, now)] && r.isReported
    ensures AlreadyReported(r, u)
    ensures r.(reports := p.reports, isReported := p.isReported) == p
    ensures RecordOk(p) && !AlreadyReported(p, u) ==> RecordOk(r)
  {
    var r := p.(reports := p.reports + [Report(u, reason, now)], isReported := true);
    assert r.reports[|p.reports|].reportedBy == u;
    assert RecordOk(p) && !AlreadyReported(p, u) ==> DistinctReporters(r.reports) by {
      if RecordOk(p) && !AlreadyReported(p, u) {
        forall i, j | 0 <= i < j < |r.reports| ensures r.reports[i].reportedBy != r.reports[j].reportedBy {
          assert r.reports[i] == p.reports[i];
          if j < |p.reports| {
            assert r.reports[j] == p.reports[j];
          }
        }
      }
    }
    r
  }

  /** Approval (lines 420-423): reports and both moderation flags cleared. */
  function Approved(p: Post): (r: Post)
    ensures !r.isReported && r.reports == [] && !r.isModerated && r.moderationReason == ""
    ensures r.(isReported := p.isReported, reports := p.reports,
               isModerated := p.isModerated, moderationReason := p.moderationReason) == p
    ensures RecordOk(p) ==> RecordOk(r)
  {
    p.(isReported := false, reports := [], isModerated := false, moderationReason := "")
  }

  /** Once approved, a post can be reported again by anyone, and the new
      report is its only one. */
  lemma ApprovalAllowsNewReports(p: Post, u: UserId, reason: string, now: Time)
    ensures !AlreadyReported(Approved(p), u)
    ensures WithReport(Approved(p), u, reason, now).reports == [Report(u, reason, now)]
  {
  }

  /** The topic counters on a new post (lines 129-131). */
  function WithNewPost(t: TopicModel.Topic, who: UserId, now: Time): (r: TopicModel.Topic)
    ensures r.postCount == t.postCount + 1 && r.lastActivity == now && r.lastPostBy == Some(who)
    ensures r.(postCount := t.postCount, lastActivity := t.lastActivity, lastPostBy := t.lastPostBy) == t
  {
    t.(postCount := t.postCount + 1, lastActivity := now, lastPostBy := Some(who))
  }

  /** `$inc: { postCount: -1 }` on the post's topic (lines 231 and 438): no
      floor at zero. */
  function WithPostRemoved(t: TopicModel.Topic): (r: TopicModel.Topic)
    ensures r.postCount == t.postCount - 1
    ensures r.(postCount := t.postCount) == t
  {
    t.(postCount := t.postCount - 1)
  }

  /** A delete undoes the count of a create, and nothing stops the count
      from going below zero when a deleted post is deleted again. */
  lemma PostCountBalance(t: TopicModel.Topic, who: UserId, now: Time)
    ensures WithPostRemoved(WithNewPost(t, who, now)).postCount == t.postCount
    ensures t.postCount == 0 ==> WithPostRemoved(WithPostRemoved(WithNewPost(t, who, now))).postCount == -1
  {
  }

  // ---------------------------------------------------------------------
  // Reported queue (GET /reported)
  // ---------------------------------------------------------------------

  /** The queue's filter. */
  predicate InQueue(p: Post) {
    p.isReported && !p.isDeleted
  }

  /** `sort({ 'reports.0.reportedAt': -1 })`: newest first report first; a
      post without reports has no such field and sorts last. */
  function ByFirstReportNewest(p: Post): Key {
    if |p.reports| == 0 then Key(1, 0) else Key(0, -p.reports[0].reportedAt)
  }

  /** The reported queue: moderators only; a page (default 1, 20 per page)
      of the live reported posts ordered by the time of their FIRST report,
      newest first. */
  function ReportedQueue(posts: seq<Post>, role: Role, page: Option<nat>, limit: Option<nat>): (r: Response<Page<Post>>)
    ensures !IsStaff(role) ==> r == Err(403, "Moderator access required")
    ensures IsStaff(role) ==> r.Ok? && r.status == 200
    ensures r.Ok? ==>
      r.value.currentPage == ParamOr(page, 1) &&
      r.value.total == |Filter(posts, InQueue)| &&
      r.value.totalPages == CeilDiv(r.value.total, ParamOr(limit, 20)) &&
      |r.value.items| <= ParamOr(limit, 20)
    ensures r.Ok? ==> forall i :: 0 <= i < |r.value.items| ==> r.value.items[i] in posts && InQueue(r.value.items[i])
    ensures r.Ok? ==> forall i, j ::
      (0 <= i < j < |r.value.items| && |r.value.items[i].reports| > 0 && |r.value.items[j].reports| > 0) ==>
      r.value.items[i].reports[0].reportedAt >= r.value.items[j].reports[0].reportedAt
    ensures r.Ok? ==>
      IsSortedPage(r.value.items, Filter(posts, InQueue), ParamOr(page, 1), ParamOr(limit, 20), ByFirstReportNewest)
  {
    match Auth.ModeratorGate(role)
    case Halt(status, message) => Err(status, message)
    case Next =>
      var pg := SortedPaginate(Filter(posts, InQueue), ParamOr(page, 1), ParamOr(limit, 20), ByFirstReportNewest);
      Ok(200, "", pg)
  }

  /** Approval takes a post out of the queue; a report puts a live post in. */
  lemma QueueMembership(p: Post, u: UserId, reason: string, now: Time)
    ensures !InQueue(Approved(p))
    ensures InQueue(WithReport(p, u, reason, now)) <==> !p.isDeleted
    ensures !InQueue(SoftDeleted(p, u, now))
  {
  }

  // ---------------------------------------------------------------------
  // Handlers that change the store
  // ---------------------------------------------------------------------

  /** The create route's lock check: a locked topic takes no posts, from
      any role. */
  predicate AcceptsPosts(t: TopicModel.Topic) {
    !t.isLocked
  }

  /** POST /: the checks run in order (missing content or topic id, unknown
      topic, locked topic, unknown parent); a new post is appended at
      `parent.level + 1` (0 without a parent), and the topic's and the
      author's post counts each go up by one. */
  method CreatePost(db: Db, actor: User, content: Option<string>, topicId: Option<TopicId>,
                    parentPostId: Option<PostId>, stamp: Moderation.Stamp, now: Time)
    returns (r: Response<Post>)
    requires db.Valid()
    modifies db
    ensures db.Valid()
    ensures !Present(content) || topicId.None? ==>
      r == Err(400, "Content and topic ID are required") && unchanged(db)
    ensures Present(content) && topicId.Some? && topicId.value >= |old(db.topics)| ==>
      r == Err(404, "Topic not found") && unchanged(db)
    ensures (Present(content) && topicId.Some? && topicId.value < |old(db.topics)| &&
             !AcceptsPosts(old(db.topics)[topicId.value])) ==>
      r == Err(403, "This topic is locked and cannot be replied to") && unchanged(db)
    ensures (Present(content) && topicId.Some? && topicId.value < |old(db.topics)| &&
             AcceptsPosts(old(db.topics)[topicId.value]) &&
             parentPostId.Some? && parentPostId.value >= |old(db.posts)|) ==>
      r == Err(404, "Parent post not found") && unchanged(db)
    ensures (Present(content) && topicId.Some? && topicId.value < |old(db.topics)| &&
             AcceptsPosts(old(db.topics)[topicId.value]) &&
             (parentPostId.Some? ==> parentPostId.value < |old(db.posts)|)) ==>
      var tid := topicId.value;
      var level := if parentPostId.Some? then old(db.posts)[parentPostId.value].level + 1 else 0;
      r == Ok(201, if stamp.Flagged? then "Post created but flagged for moderation" else "Post created successfully",
              NewPost(|old(db.posts)|, content.value, actor.id, tid, parentPostId, level, stamp, now)) &&
      db.posts == old(db.posts) + [r.value] &&
      db.topics == old(db.topics)[tid := WithNewPost(old(db.topics)[tid], actor.id, now)] &&
      db.users == old(db.users)[actor.id := actor.(postCount := actor.postCount + 1)]
  {
    if !Present(content) || topicId.None? {
      return Err(400, "Content and topic ID are required");
    }
    var tid := topicId.value;
    if tid >= |db.topics| {
      return Err(404, "Topic not found");
    }
    var topic := db.topics[tid];
    if !AcceptsPosts(topic) {
      return Err(403, "This topic is locked and cannot be replied to");
    }
    var level := 0;
    if parentPostId.Some? {
      if parentPostId.value >= |db.posts| {
        return Err(404, "Parent post not found");
      }
      level := db.posts[parentPostId.value].level + 1;
    }
    var post := NewPost(|db.posts|, content.value, actor.id, tid, parentPostId, level, stamp, now);
    AppendKeepsWellFormed(db.posts, post, |db.topics|);
    db.posts := db.posts + [post];
    db.topics := db.topics[tid := WithNewPost(topic, actor.id, now)];
    db.users := db.users[actor.id := actor.(postCount := actor.postCount + 1)];
    r := Ok(201, if stamp.Flagged? then "Post created but flagged for moderation" else "Post created successfully", post);
  }

  /** PUT /:id: 404 for an unknown post, 403 unless the actor may edit it,
      otherwise the edit is saved and the edited post returned. A deleted
      post is still found and can be edited. */
  method EditPost(db: Db, actor: User, id: PostId, content: Option<string>, stamp: Moderation.Stamp, now: Time)
    returns (r: Response<Post>)
    requires db.Valid()
    modifies db
    ensures db.Valid()
    ensures id >= |old(db.posts)| ==> r == Err(404, "Post not found") && unchanged(db)
    ensures id < |old(db.posts)| && !CanEdit(old(db.posts)[id], actor.id, actor.role) ==>
      r == Err(403, "No permission to edit this post") && unchanged(db)
    ensures id < |old(db.posts)| && CanEdit(old(db.posts)[id], actor.id, actor.role) ==>
      var q := Edited(old(db.posts)[id], content, stamp, now);
      r == Ok(200, "Post updated successfully", q) && db.posts == old(db.posts)[id := q] &&
      db.topics == old(db.topics) && db.users == old(db.users)
  {
    if id >= |db.posts| {
      return Err(404, "Post not found");
    }
    var p := db.posts[id];
    if !CanEdit(p, actor.id, actor.role) {
      return Err(403, "No permission to edit this post");
    }
    var q := Edited(p, content, stamp, now);
    assert PostOk(db.posts, id, |db.topics|);
    ReplaceKeepsWellFormed(db.posts, id, q, |db.topics|);
    db.posts := db.posts[id := q];
    r := Ok(200, "Post updated successfully", q);
  }

  /** The soft delete and the decrement of the post's topic, shared by
      DELETE /:id and the moderators' delete action. */
  method SoftDeleteAndCount(db: Db, id: PostId, who: UserId, now: Time)
    requires db.Valid() && id < |db.posts|
    modifies db
    ensures db.Valid()
    ensures var p := old(db.posts)[id];
      p.topic < |old(db.topics)| &&
      db.posts == old(db.posts)[id := SoftDeleted(p, who, now)] &&
      db.topics == old(db.topics)[p.topic := WithPostRemoved(old(db.topics)[p.topic])] &&
      db.users == old(db.users)
  {
    var p := db.posts[id];
    assert PostOk(db.posts, id, |db.topics|);
    var q := SoftDeleted(p, who, now);
    ReplaceKeepsWellFormed(db.posts, id, q, |db.topics|);
    db.posts := db.posts[id := q];
    db.topics := db.topics[p.topic := WithPostRemoved(db.topics[p.topic])];
  }

  /** DELETE /:id: 404, then 403 unless the actor may delete; otherwise the
      post is soft deleted and its topic's count goes down by one, even
      when the post was already deleted. */
  method DeletePost(db: Db, actor: User, id: PostId, now: Time) returns (r: Response<()>)
    requires db.Valid()
    modifies db
    ensures db.Valid()
    ensures id >= |old(db.posts)| ==> r == Err(404, "Post not found") && unchanged(db)
    ensures id < |old(db.posts)| && !CanDelete(old(db.posts)[id], actor.id, actor.role) ==>
      r == Err(403, "No permission to delete this post") && unchanged(db)
    ensures id < |old(db.posts)| && CanDelete(old(db.posts)[id], actor.id, actor.role) ==>
      var p := old(db.posts)[id];
      r == Ok(200, "Post deleted successfully", ()) &&
      p.topic < |old(db.topics)| &&
      db.posts == old(db.posts)[id := SoftDeleted(p, actor.id, now)] &&
      db.topics == old(db.topics)[p.topic := WithPostRemoved(old(db.topics)[p.topic])] &&
      db.users == old(db.users)
  {
    if id >= |db.posts| {
      return Err(404, "Post not found");
    }
    if !CanDelete(db.posts[id], actor.id, actor.role) {
      return Err(403, "No permission to delete this post");
    }
    SoftDeleteAndCount(db, id, actor.id, now);
    r := Ok(200, "Post deleted successfully", ());
  }

  /** The body of a like response: the new state and the new count. */
  datatype LikeState = LikeState(liked: bool, likeCount: nat)

  /** POST /:id/like: 404, otherwise the like is toggled and the response
      reports whether the actor now likes the post. */
  method LikePost(db: Db, actor: User, id: PostId) returns (r: Response<LikeState>)
    requires db.Valid()
    modifies db
    ensures db.Valid()
    ensures id >= |old(db.posts)| ==> r == Err(404, "Post not found") && unchanged(db)
    ensures id < |old(db.posts)| ==>
      var q := WithLikeToggled(old(db.posts)[id], actor.id);
      db.posts == old(db.posts)[id := q] &&
      db.topics == old(db.topics) && db.users == old(db.users) &&
      r == Ok(200, if HasLiked(q, actor.id) then "Post liked" else "Post unliked",
              LikeState(HasLiked(q, actor.id), q.likeCount))
  {
    if id >= |db.posts| {
      return Err(404, "Post not found");
    }
    var p := db.posts[id];
    assert PostOk(db.posts, id, |db.topics|);
    var q := WithLikeToggled(p, actor.id);
    ReplaceKeepsWellFormed(db.posts, id, q, |db.topics|);
    db.posts := db.posts[id := q];
    if HasLiked(p, actor.id) {
      r := Ok(200, "Post unliked", LikeState(false, q.likeCount));
    } else {
      r := Ok(200, "Post liked", LikeState(true, q.likeCount));
    }
  }

  /** POST /:id/report: a missing reason is refused before the post is
      looked up, then 404, then a second report by the same user is refused
      with the reports untouched; otherwise exactly one report is added. */
  method ReportPost(db: Db, actor: User, id: PostId, reason: Option<string>, now: Time) returns (r: Response<()>)
    requires db.Valid()
    modifies db
    ensures db.Valid()
    ensures !Present(reason) ==> r == Err(400, "Report reason is required") && unchanged(db)
    ensures Present(reason) && id >= |old(db.posts)| ==> r == Err(404, "Post not found") && unchanged(db)
    ensures Present(reason) && id < |old(db.posts)| && AlreadyReported(old(db.posts)[id], actor.id) ==>
      r == Err(400, "You have already reported this post") && unchanged(db)
    ensures Present(reason) && id < |old(db.posts)| && !AlreadyReported(old(db.posts)[id], actor.id) ==>
      r == Ok(200, "Post reported successfully. Moderators will review it.", ()) &&
      db.posts == old(db.posts)[id := WithReport(old(db.posts)[id], actor.id, reason.value, now)] &&
      db.topics == old(db.topics) && db.users == old(db.users)
  {
    if !Present(reason) {
      return Err(400, "Report reason is required");
    }
    if id >= |db.posts| {
      return Err(404, "Post not found");
    }
    var p := db.posts[id];
    if AlreadyReported(p, actor.id) {
      return Err(400, "You have already reported this post");
    }
    assert PostOk(db.posts, id, |db.topics|);
    var q := WithReport(p, actor.id, reason.value, now);
    ReplaceKeepsWellFormed(db.posts, id, q, |db.topics|);
    db.posts := db.posts[id := q];
    r := Ok(200, "Post reported successfully. Moderators will review it.", ());
  }

  /** PATCH /:id/moderate: moderators only; 404; `approve` clears the
      reports and flags, `delete` soft deletes and decrements the topic's
      count, and any other action is refused with nothing changed. */
  method ModeratePost(db: Db, actor: User, id: PostId, action: Option<string>, now: Time) returns (r: Response<()>)
    requires db.Valid()
    modifies db
    ensures db.Valid()
    ensures !IsStaff(actor.role) ==> r == Err(403, "Moderator access required") && unchanged(db)
    ensures IsStaff(actor.role) && id >= |old(db.posts)| ==> r == Err(404, "Post not found") && unchanged(db)
    ensures IsStaff(actor.role) && id < |old(db.posts)| && action == Some("approve") ==>
      r == Ok(200, "Post approved successfully", ()) &&
      db.posts == old(db.posts)[id := Approved(old(db.posts)[id])] &&
      db.topics == old(db.topics) && db.users == old(db.users)
    ensures IsStaff(actor.role) && id < |old(db.posts)| && action == Some("delete") ==>
      var p := old(db.posts)[id];
      r == Ok(200, "Post deleted successfully", ()) &&
      p.topic < |old(db.topics)| &&
      db.posts == old(db.posts)[id := SoftDeleted(p, actor.id, now)] &&
      db.topics == old(db.topics)[p.topic := WithPostRemoved(old(db.topics)[p.topic])] &&
      db.users == old(db.users)
    ensures IsStaff(actor.role) && id < |old(db.posts)| && action != Some("approve") && action != Some("delete") ==>
      r == Err(400, "Invalid action") && unchanged(db)
  {
    var gate := Auth.ModeratorGate(actor.role);
    if gate.Halt? {
      return Err(gate.status, gate.message);
    }
    if id >= |db.posts| {
      return Err(404, "Post not found");
    }
    if action == Some("approve") {
      var p := db.posts[id];
      assert PostOk(db.posts, id, |db.topics|);
      var q := Approved(p);
      ReplaceKeepsWellFormed(db.posts, id, q, |db.topics|);
      db.posts := db.posts[id := q];
      r := Ok(200, "Post approved successfully", ());
    } else if action == Some("delete") {
      SoftDeleteAndCount(db, id, actor.id, now);
      r := Ok(200, "Post deleted successfully", ());
    } else {
      r := Err(400, "Invalid action");
    }
  }
}
