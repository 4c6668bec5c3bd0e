/** The post record, its schema defaults and its permission predicates
    (backend/models/Post.js). */
module PostModel {
  import opened Common
  import Moderation

  /** One entry of a post's `reports` array. */
  datatype Report = Report(reportedBy: UserId, reason: string, reportedAt: Time)

  datatype Post = Post(
    id: PostId,
    content: string,
    author: UserId,
    topic: TopicId,
    parentPost: Option<PostId>,
    level: nat,
    likes: seq<UserId>,
    likeCount: nat,
    isReported: bool,
    reports: seq<Report>,
    isDeleted: bool,
    deletedAt: Option<Time>,
    deletedBy: Option<UserId>,
    isModerated: bool,
    moderationReason: string,
    createdAt: Time,
    updatedAt: Time)

  /** No user appears twice. */
  predicate Distinct(s: seq<UserId>) {
    forall i, j :: 0 <= i < j < |s| ==> s[i] != s[j]
  }

  /** No user has filed two reports. */
  predicate DistinctReporters(reports: seq<Report>) {
    forall i, j :: 0 <= i < j < |reports| ==> reports[i].reportedBy != reports[j].reportedBy
  }

  /** What every stored post keeps, whatever happens to it: `likeCount`
      counts `likes`, nobody likes twice or reports twice, and a reported
      post has at least one report. */
  predicate RecordOk(p: Post) {
    p.likeCount == |p.likes| && Distinct(p.likes) &&
    DistinctReporters(p.reports) && (p.isReported ==> |p.reports| > 0)
  }

  /** `new Post({...})`: the given fields with the schema defaults for the
      rest (no likes, no reports, not deleted, `createdAt` and `updatedAt`
      both now); the filter's verdict becomes `isModerated` and
      `moderationReason` (`req.flaggedContent || false`,
      `req.moderationReason || ''`). */
  function NewPost(id: PostId, content: string, author: UserId, topic: TopicId,
                   parentPost: Option<PostId>, level: nat, stamp: Moderation.Stamp, now: Time): (p: Post)
    ensures RecordOk(p)
    ensures p.id == id && p.content == content && p.author == author && p.topic == topic
    ensures p.parentPost == parentPost && p.level == level
    ensures p.createdAt == now && p.updatedAt == now
    ensures p.likes == [] && p.likeCount == 0 && p.reports == []
    ensures !p.isReported && !p.isDeleted && p.deletedAt.None? && p.deletedBy.None?
    ensures p.isModerated <==> stamp.Flagged?
    ensures p.moderationReason == if stamp.Flagged? then stamp.reason else ""
  {
    Post(id, content, author, topic, parentPost, level, [], 0, false, [], false, None, None,
         stamp.Flagged?, if stamp.Flagged? then stamp.reason else "", now, now)
  }

  /** Schema defaults for a post created with no parent: top level, level 0. */
  lemma NewTopLevelPost(id: PostId, content: string, author: UserId, topic: TopicId,
                        stamp: Moderation.Stamp, now: Time)
    ensures var p := NewPost(id, content, author, topic, None, 0, stamp, now);
      p.parentPost == None && p.level == 0 && !p.isReported && !p.isDeleted && !(p.isModerated && stamp.Clean?)
  {
  }

  /** `canEdit(userId, role)`: the author, or any moderator or admin. */
  predicate CanEdit(p: Post, userId: UserId, role: Role) {
    p.author == userId || role == Moderator || role == Admin
  }

  /** `canDelete(userId, role)`: written out separately in the source, with
      the same body as `canEdit`. */
  predicate CanDelete(p: Post, userId: UserId, role: Role) {
    p.author == userId || role == Moderator || role == Admin
  }

  /** Deleting is allowed exactly when editing is. */
  lemma CanDeleteIsCanEdit(p: Post, userId: UserId, role: Role)
    ensures CanDelete(p, userId, role) <==> CanEdit(p, userId, role)
  {
  }

  /** A plain user who is not the author may neither edit nor delete. */
  lemma MemberNonAuthorPowerless(p: Post, userId: UserId)
    requires p.author != userId
    ensures !CanEdit(p, userId, Member) && !CanDelete(p, userId, Member)
  {
  }

  /** Staff may edit and delete every post. */
  lemma StaffMayAlways(p: Post, userId: UserId, role: Role)
    requires IsStaff(role)
    ensures CanEdit(p, userId, role) && CanDelete(p, userId, role)
  {
  }

  /** `hasLiked(userId)`: some entry of `likes` is the user. */
  predicate HasLiked(p: Post, userId: UserId): (r: bool)
    ensures r <==> userId in p.likes
  {
    exists i :: 0 <= i < |p.likes| && p.likes[i] == userId
  }

  /** `hasLiked` is membership in `likes`. */
  lemma HasLikedIsMembership(p: Post, userId: UserId)
    ensures HasLiked(p, userId) <==> userId in p.likes
  {
  }
}
