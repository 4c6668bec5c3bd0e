/** The topic routes (backend/routes/topics.js): the two listings as
    functions of the stored topics, and the handlers that change the store
    as methods, each built from a pure transition of one topic (`Patched`,
    `Locked`, `Pinned`) or of the posts (`CascadeDeleted`). */
module TopicRoutes {
  import opened Common
  import opened Text
  import opened Query
  import opened TopicModel
  import PostModel
  import opened Store
  import opened Http
  import Moderation
  import Auth
  import PostRoutes

  // ---------------------------------------------------------------------
  // Listings (GET / and GET /category/:category)
  // ---------------------------------------------------------------------

  /** A case-insensitive search of the title or the description. */
  predicate Mentions(t: Topic, search: string) {
    Includes(ToLower(t.title), ToLower(search)) || Includes(ToLower(t.description), ToLower(search))
  }

  /** The list query: not deleted; in the category unless none or `All` is
      asked for; mentioning the search text when one is given. */
  predicate MatchesQuery(t: Topic, category: Option<string>, search: Option<string>) {
    !t.isDeleted &&
    (Present(category) && category.value != "All" ==> t.category == category.value) &&
    (Present(search) ==> Mentions(t, search.value))
  }

  function Matching(topics: seq<Topic>, category: Option<string>, search: Option<string>): seq<Topic> {
    Filter(topics, t => MatchesQuery(t, category, search))
  }

  /** `sort({ isPinned: -1, lastActivity: -1 })`. */
  function PinnedThenRecent(t: Topic): Key {
    Key(if t.isPinned then 0 else 1, -t.lastActivity)
  }

  /** Pinned topics first, then the most recently active. */
  predicate ListedOrder(items: seq<Topic>) {
    forall i, j :: 0 <= i < j < |items| ==>
      (items[j].isPinned ==> items[i].isPinned) &&
      (items[i].isPinned == items[j].isPinned ==> items[i].lastActivity >= items[j].lastActivity)
  }

  lemma SortedListedOrder(items: seq<Topic>)
    requires SortedBy(items, PinnedThenRecent)
    ensures ListedOrder(items)
  {
    forall i, j | 0 <= i < j < |items|
      ensures (items[j].isPinned ==> items[i].isPinned) &&
              (items[i].isPinned == items[j].isPinned ==> items[i].lastActivity >= items[j].lastActivity)
    {
      assert KeyLe(PinnedThenRecent(items[i]), PinnedThenRecent(items[j]));
    }
  }

  /** A sorted page of topics. */
  function SortedPage(matches: seq<Topic>, page: nat, limit: nat): (r: Page<Topic>)
    requires page >= 1 && limit >= 1
    ensures r.currentPage == page && r.total == |matches| && r.totalPages == CeilDiv(|matches|, limit)
    ensures |r.items| <= limit
    ensures forall i :: 0 <= i < |r.items| ==> r.items[i] in matches
    ensures ListedOrder(r.items)
    ensures IsSortedPage(r.items, matches, page, limit, PinnedThenRecent)
  {
    var pg := SortedPaginate(matches, page, limit, PinnedThenRecent);
    SortedListedOrder(pg.items);
    pg
  }

  /** The main list's response: the page and whether more pages follow. */
  datatype TopicPage = TopicPage(page: Page<Topic>, hasMore: bool)

  /** GET /: a page (default 1, 10 per page) of the matching topics, pinned
      first and then by latest activity; `hasMore` holds exactly when
      matching topics remain after this page. */
  function ListTopics(topics: seq<Topic>, page: Option<nat>, limit: Option<nat>,
                      category: Option<string>, search: Option<string>): (r: TopicPage)
    ensures r.page.currentPage == ParamOr(page, 1)
    ensures r.page.total == |Matching(topics, category, search)|
    ensures r.page.totalPages == CeilDiv(r.page.total, ParamOr(limit, 10))
    ensures |r.page.items| <= ParamOr(limit, 10)
    ensures forall i :: 0 <= i < |r.page.items| ==>
      r.page.items[i] in topics && MatchesQuery(r.page.items[i], category, search)
    ensures ListedOrder(r.page.items)
    ensures IsSortedPage(r.page.items, Matching(topics, category, search), ParamOr(page, 1), ParamOr(limit, 10), PinnedThenRecent)
    ensures r.hasMore <==> ParamOr(page, 1) * ParamOr(limit, 10) < r.page.total
  {
    var pg := SortedPage(Matching(topics, category, search), ParamOr(page, 1), ParamOr(limit, 10));
    HasMoreIff(pg.total, ParamOr(page, 1), ParamOr(limit, 10));
    TopicPage(pg, pg.currentPage < pg.totalPages)
  }

  /** The category route's query: exactly that category, not deleted. */
  predicate InCategory(t: Topic, category: string) {
    t.category == category && !t.isDeleted
  }

  /** GET /category/:category: the same paging and order as the main list,
      for one category matched literally. */
  function ListCategory(topics: seq<Topic>, category: string, page: Option<nat>, limit: Option<nat>): (r: Page<Topic>)
    ensures r.currentPage == ParamOr(page, 1)
    ensures r.total == |Filter(topics, t => InCategory(t, category))|
    ensures r.totalPages == CeilDiv(r.total, ParamOr(limit, 10))
    ensures |r.items| <= ParamOr(limit, 10)
    ensures forall i :: 0 <= i < |r.items| ==> r.items[i] in topics && InCategory(r.items[i], category)
    ensures ListedOrder(r.items)
    ensures IsSortedPage(r.items, Filter(topics, t => InCategory(t, category)), ParamOr(page, 1), ParamOr(limit, 10), PinnedThenRecent)
  {
    SortedPage(Filter(topics, t => InCategory(t, category)), ParamOr(page, 1), ParamOr(limit, 10))
  }

  /** For any real category name the two routes list the same page. */
  lemma CategoryRouteAgrees(topics: seq<Topic>, category: string, page: Option<nat>, limit: Option<nat>)
    requires category != "" && category != "All"
    ensures ListCategory(topics, category, page, limit) == ListTopics(topics, page, limit, Some(category), None).page
  {
    FilterAgrees(topics, t => InCategory(t, category), t => MatchesQuery(t, Some(category), None));
  }

  /** `All` is a wildcard only on the main list: the category route takes
      it literally and lists only topics whose category is `All`. */
  lemma AllIsLiteralOnCategoryRoute(topics: seq<Topic>, page: Option<nat>, limit: Option<nat>)
    ensures forall i :: 0 <= i < |ListCategory(topics, "All", page, limit).items| ==>
      ListCategory(topics, "All", page, limit).items[i].category == "All"
    ensures ListTopics(topics, page, limit, Some("All"), None).page == ListTopics(topics, page, limit, None, None).page
  {
    FilterAgrees(topics, t => MatchesQuery(t, Some("All"), None), t => MatchesQuery(t, None, None));
  }

  // ---------------------------------------------------------------------
  // Record transitions
  // ---------------------------------------------------------------------

  /** The partial update (lines 204-214): each non-empty field sent
      replaces the stored one (tags whenever sent, an array being always
      truthy), and a flagged update marks the topic moderated. */
  function Patched(t: Topic, title: Option<string>, description: Option<string>, category: Option<string>,
                   tags: Option<seq<string>>, stamp: Moderation.Stamp): (r: Topic)
    ensures r.title == if Present(title) then title.value else t.title
    ensures r.description == if Present(description) then description.value else t.description
    ensures r.category == if Present(category) then category.value else t.category
    ensures r.tags == if tags.Some? then tags.value else t.tags
    ensures r.isModerated <==> t.isModerated || stamp.Flagged?
    ensures r.moderationReason == if stamp.Flagged? then stamp.reason else t.moderationReason
    ensures r.(title := t.title, description := t.description, category := t.category, tags := t.tags,
               isModerated := t.isModerated, moderationReason := t.moderationReason) == t
  {
    var r := t.(title := if Present(title) then title.value else t.title,
                description := if Present(description) then description.value else t.description,
                category := if Present(category) then category.value else t.category,
                tags := if tags.Some? then tags.value else t.tags);
    if stamp.Flagged? then r.(isModerated := true, moderationReason := stamp.reason) else r
  }

  /** Sending the same update twice changes nothing the second time. */
  lemma PatchIdempotent(t: Topic, title: Option<string>, description: Option<string>, category: Option<string>,
                        tags: Option<seq<string>>, stamp: Moderation.Stamp)
    ensures var once := Patched(t, title, description, category, tags, stamp);
      Patched(once, title, description, category, tags, stamp) == once
  {
  }

  /** An empty update changes nothing, and no update clears `isModerated`. */
  lemma EmptyPatchIsIdentity(t: Topic, stamp: Moderation.Stamp)
    ensures Patched(t, None, None, None, None, Moderation.Clean) == t
    ensures t.isModerated ==> Patched(t, None, None, None, None, stamp).isModerated
  {
  }

  /** `isLocked = !isLocked` by a moderator (lines 269-270). */
  function Locked(t: Topic, who: UserId): (r: Topic)
    ensures r.isLocked == !t.isLocked && r.moderatedBy == Some(who)
    ensures r.(isLocked := t.isLocked, moderatedBy := t.moderatedBy) == t
  {
    t.(isLocked := !t.isLocked, moderatedBy := Some(who))
  }

  /** `isPinned = !isPinned` by a moderator (lines 297-298). */
  function Pinned(t: Topic, who: UserId): (r: Topic)
    ensures r.isPinned == !t.isPinned && r.moderatedBy == Some(who)
    ensures r.(isPinned := t.isPinned, moderatedBy := t.moderatedBy) == t
  {
    t.(isPinned := !t.isPinned, moderatedBy := Some(who))
  }

  /** Toggling twice restores the flag; only `moderatedBy` remembers it. */
  lemma ToggleTwiceRestores(t: Topic, first: UserId, second: UserId)
    ensures Locked(Locked(t, first), second) == t.(moderatedBy := Some(second))
    ensures Pinned(Pinned(t, first), second) == t.(moderatedBy := Some(second))
  {
  }

  /** The lock stops new posts; unlocking lets them in again. */
  lemma LockGovernsPosting(t: Topic, who: UserId)
    ensures PostRoutes.AcceptsPosts(Locked(t, who)) <==> !PostRoutes.AcceptsPosts(t)
  {
  }

  /** `Post.updateMany({ topic }, { isDeleted, deletedAt, deletedBy })`:
      every post of the topic soft deleted, those already deleted included. */
  function CascadeDeleted(posts: seq<PostModel.Post>, topic: TopicId, who: UserId, now: Time): (r: seq<PostModel.Post>)
    ensures |r| == |posts|
    ensures forall i :: 0 <= i < |r| ==>
      r[i] == if posts[i].topic == topic then PostRoutes.SoftDeleted(posts[i], who, now) else posts[i]
  {
    seq(|posts|, i requires 0 <= i < |posts| =>
      if posts[i].topic == topic then PostRoutes.SoftDeleted(posts[i], who, now) else posts[i])
  }

  /** The cascade leaves no live post in the topic, touches no other topic,
      and keeps the store well formed. */
  lemma CascadeEffect(posts: seq<PostModel.Post>, topicCount: nat, topic: TopicId, who: UserId, now: Time)
    requires WellFormed(posts, topicCount)
    ensures var r := CascadeDeleted(posts, topic, who, now);
      WellFormed(r, topicCount) &&
      (forall i :: 0 <= i < |r| && r[i].topic == topic ==> r[i].isDeleted) &&
      (forall i :: 0 <= i < |r| && posts[i].topic != topic ==> r[i] == posts[i])
  {
    var r := CascadeDeleted(posts, topic, who, now);
    forall j | 0 <= j < |r| ensures PostOk(r, j, topicCount) {
      assert PostOk(posts, j, topicCount);
      if posts[j].parentPost.Some? {
        var q := posts[j].parentPost.value;
        assert r[q].level == posts[q].level;
      }
    }
  }

  /** After the cascade the topic's thread listing is empty. */
  lemma CascadeEmptiesThread(posts: seq<PostModel.Post>, topic: TopicId, who: UserId, now: Time,
                             page: Option<nat>, limit: Option<nat>)
    ensures PostRoutes.ListThread(CascadeDeleted(posts, topic, who, now), topic, page, limit).total == 0
  {
    FilterNone(CascadeDeleted(posts, topic, who, now), p => PostRoutes.IsTopLevelIn(p, topic));
  }

  // ---------------------------------------------------------------------
  // Handlers
  // ---------------------------------------------------------------------

  /** GET /:id: 404 when there is no such topic or it is deleted;
      otherwise its stored view count goes up by one and the topic is
      returned showing the new count. */
  method GetTopic(db: Db, id: TopicId) returns (r: Response<Topic>)
    requires db.Valid()
    modifies db
    ensures db.Valid()
    ensures id >= |old(db.topics)| ==> r == Err(404, "Topic not found") && unchanged(db)
    ensures id < |old(db.topics)| && old(db.topics)[id].isDeleted ==>
      r == Err(404, "Topic has been deleted") && unchanged(db)
    ensures id < |old(db.topics)| && !old(db.topics)[id].isDeleted ==>
      r == Ok(200, "", Viewed(old(db.topics)[id])) &&
      db.topics == old(db.topics)[id := r.value] &&
      db.posts == old(db.posts) && db.users == old(db.users)
  {
    if id >= |db.topics| {
      return Err(404, "Topic not found");
    }
    var t := db.topics[id];
    if t.isDeleted {
      return Err(404, "Topic has been deleted");
    }
    db.IncrementViewCount(id);
    r := Ok(200, "", Viewed(t));
  }

  /** POST /: 400 unless both title and description are sent; otherwise a
      new topic with the schema defaults (category `General` and no tags
      when not sent) is stored. The author's post count goes up by one
      when saving the user succeeds; a failure there is swallowed
      (`userSaved` is that outcome). */
  method CreateTopic(db: Db, actor: User, title: Option<string>, description: Option<string>,
                     category: Option<string>, tags: Option<seq<string>>, stamp: Moderation.Stamp,
                     now: Time, userSaved: bool)
    returns (r: Response<Topic>)
    requires db.Valid()
    modifies db
    ensures db.Valid()
    ensures !Present(title) || !Present(description) ==>
      r == Err(400, "Title and description are required") && unchanged(db)
    ensures Present(title) && Present(description) ==>
      r.Ok? && r.status == 201 &&
      r.message == (if stamp.Flagged? then "Topic created but flagged for moderation" else "Topic created successfully") &&
      r.value == NewTopic(|old(db.topics)|, title.value, description.value, actor.id,
                          if Present(category) then category.value else DefaultCategory,
                          if tags.Some? then tags.value else [], stamp, now) &&
      db.topics == old(db.topics) + [r.value] && db.posts == old(db.posts) &&
      db.users == if userSaved then old(db.users)[actor.id := actor.(postCount := actor.postCount + 1)]
                  else old(db.users)
  {
    if !Present(title) || !Present(description) {
      return Err(400, "Title and description are required");
    }
    var t := NewTopic(|db.topics|, title.value, description.value, actor.id,
                      if Present(category) then category.value else DefaultCategory,
                      if tags.Some? then tags.value else [], stamp, now);
    MoreTopicsKeepWellFormed(db.posts, |db.topics|, |db.topics| + 1);
    db.topics := db.topics + [t];
    if userSaved {
      db.users := db.users[actor.id := actor.(postCount := actor.postCount + 1)];
    }
    r := Ok(201, if stamp.Flagged? then "Topic created but flagged for moderation" else "Topic created successfully", t);
  }

  /** PUT /:id: 404, then 403 unless the actor may edit the topic;
      otherwise the partial update is saved. */
  method UpdateTopic(db: Db, actor: User, id: TopicId, title: Option<string>, description: Option<string>,
                     category: Option<string>, tags: Option<seq<string>>, stamp: Moderation.Stamp)
    returns (r: Response<Topic>)
    requires db.Valid()
    modifies db
    ensures db.Valid()
    ensures id >= |old(db.topics)| ==> r == Err(404, "Topic not found") && unchanged(db)
    ensures id < |old(db.topics)| && !CanEdit(old(db.topics)[id], actor.id, actor.role) ==>
      r == Err(403, "No permission to edit") && unchanged(db)
    ensures id < |old(db.topics)| && CanEdit(old(db.topics)[id], actor.id, actor.role) ==>
      var t := Patched(old(db.topics)[id], title, description, category, tags, stamp);
      r == Ok(200, "Topic updated", t) && db.topics == old(db.topics)[id := t] &&
      db.posts == old(db.posts) && db.users == old(db.users)
  {
    if id >= |db.topics| {
      return Err(404, "Topic not found");
    }
    if !CanEdit(db.topics[id], actor.id, actor.role) {
      return Err(403, "No permission to edit");
    }
    var t := Patched(db.topics[id], title, description, category, tags, stamp);
    db.topics := db.topics[id := t];
    r := Ok(200, "Topic updated", t);
  }

  /** DELETE /:id: 404, then 403 unless the actor may delete the topic;
      otherwise the topic is marked deleted (its post count untouched) and
      every post in it is soft deleted. */
  method DeleteTopic(db: Db, actor: User, id: TopicId, now: Time) returns (r: Response<()>)
    requires db.Valid()
    modifies db
    ensures db.Valid()
    ensures id >= |old(db.topics)| ==> r == Err(404, "Topic not found") && unchanged(db)
    ensures id < |old(db.topics)| && !CanDelete(old(db.topics)[id], actor.id, actor.role) ==>
      r == Err(403, "No permission to delete") && unchanged(db)
    ensures id < |old(db.topics)| && CanDelete(old(db.topics)[id], actor.id, actor.role) ==>
      r == Ok(200, "Topic deleted", ()) &&
      db.topics == old(db.topics)[id := old(db.topics)[id].(isDeleted := true)] &&
      db.posts == CascadeDeleted(old(db.posts), id, actor.id, now) &&
      db.users == old(db.users)
  {
    if id >= |db.topics| {
      return Err(404, "Topic not found");
    }
    var t := db.topics[id];
    if !CanDelete(t, actor.id, actor.role) {
      return Err(403, "No permission to delete");
    }
    CascadeEffect(db.posts, |db.topics|, id, actor.id, now);
    db.topics := db.topics[id := t.(isDeleted := true)];
    db.posts := CascadeDeleted(db.posts, id, actor.id, now);
    r := Ok(200, "Topic deleted", ());
  }

  /** PATCH /:id/lock: moderators only; 404; otherwise the lock flips and
      the response carries the new value. */
  method ToggleLock(db: Db, actor: User, id: TopicId) returns (r: Response<bool>)
    requires db.Valid()
    modifies db
    ensures db.Valid()
    ensures !IsStaff(actor.role) ==> r == Err(403, "Moderator access required") && unchanged(db)
    ensures IsStaff(actor.role) && id >= |old(db.topics)| ==> r == Err(404, "Topic not found") && unchanged(db)
    ensures IsStaff(actor.role) && id < |old(db.topics)| ==>
      var t := Locked(old(db.topics)[id], actor.id);
      r == Ok(200, if t.isLocked then "Topic locked" else "Topic unlocked", t.isLocked) &&
      db.topics == old(db.topics)[id := t] && db.posts == old(db.posts) && db.users == old(db.users)
  {
    var gate := Auth.ModeratorGate(actor.role);
    if gate.Halt? {
      return Err(gate.status, gate.message);
    }
    if id >= |db.topics| {
      return Err(404, "Topic not found");
    }
    var t := Locked(db.topics[id], actor.id);
    db.topics := db.topics[id := t];
    r := Ok(200, if t.isLocked then "Topic locked" else "Topic unlocked", t.isLocked);
  }

  /** PATCH /:id/pin: moderators only; 404; otherwise the pin flips and
      the response carries the new value. */
  method TogglePin(db: Db, actor: User, id: TopicId) returns (r: Response<bool>)
    requires db.Valid()
    modifies db
    ensures db.Valid()
    ensures !IsStaff(actor.role) ==> r == Err(403, "Moderator access required") && unchanged(db)
    ensures IsStaff(actor.role) && id >= |old(db.topics)| ==> r == Err(404, "Topic not found") && unchanged(db)
    ensures IsStaff(actor.role) && id < |old(db.topics)| ==>
      var t := Pinned(old(db.topics)[id], actor.id);
      r == Ok(200, if t.isPinned then "Topic pinned" else "Topic unpinned", t.isPinned) &&
      db.topics == old(db.topics)[id := t] && db.posts == old(db.posts) && db.users == old(db.users)
  {
    var gate := Auth.ModeratorGate(actor.role);
    if gate.Halt? {
      return Err(gate.status, gate.message);
    }
    if id >= |db.topics| {
      return Err(404, "Topic not found");
    }
    var t := Pinned(db.topics[id], actor.id);
    db.topics := db.topics[id := t];
    r := Ok(200, if t.isPinned then "Topic pinned" else "Topic unpinned", t.isPinned);
  }
}
