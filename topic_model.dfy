/** The topic record, its schema defaults and its permission predicates
    (backend/models/Topic.js). The `incrementViewCount` static, which
    updates the stored record, is `Store.Db.IncrementViewCount`. */
module TopicModel {
  import opened Common
  import Moderation

  datatype Topic = Topic(
    id: TopicId,
    title: string,
    description: string,
    author: UserId,
    category: string,
    tags: seq<string>,
    viewCount: int,
    isDeleted: bool,
    isLocked: bool,
    isPinned: bool,
    isModerated: bool,
    moderationReason: string,
    moderatedBy: Option<UserId>,
    postCount: int,
    lastActivity: Time,
    lastPostBy: Option<UserId>,
    createdAt: Time)

  const DefaultCategory: string := "General"

  /** `new Topic({...})`: the given fields with the schema defaults for the
      rest: no views, no posts, no flags set, nobody has posted yet, and
      both `lastActivity` and `createdAt` now. */
  function NewTopic(id: TopicId, title: string, description: string, author: UserId,
                    category: string, tags: seq<string>, stamp: Moderation.Stamp, now: Time): (t: Topic)
    ensures t.id == id && t.title == title && t.description == description && t.author == author
    ensures t.category == category && t.tags == tags
    ensures t.viewCount == 0 && t.postCount == 0
    ensures !t.isDeleted && !t.isLocked && !t.isPinned
    ensures t.isModerated <==> stamp.Flagged?
    ensures t.moderationReason == if stamp.Flagged? then stamp.reason else ""
    ensures t.moderatedBy.None? && t.lastPostBy.None?
    ensures t.lastActivity == now && t.createdAt == now
  {
    Topic(id, title, description, author, category, tags, 0, false, false, false,
          stamp.Flagged?, if stamp.Flagged? then stamp.reason else "", None, 0, now, None, now)
  }

  /** `canEdit(userId, role)`: the author, or any moderator or admin. */
  predicate CanEdit(t: Topic, userId: UserId, role: Role) {
    t.author == userId || role == Moderator || role == Admin
  }

  /** `canDelete(userId, role)`: the same body as `canEdit`. */
  predicate CanDelete(t: Topic, userId: UserId, role: Role) {
    t.author == userId || role == Moderator || role == Admin
  }

  /** Deleting a topic is allowed exactly when editing it is. */
  lemma CanDeleteIsCanEdit(t: Topic, userId: UserId, role: Role)
    ensures CanDelete(t, userId, role) <==> CanEdit(t, userId, role)
  {
  }

  /** A plain user who is not the author may neither edit nor delete. */
  lemma MemberNonAuthorPowerless(t: Topic, userId: UserId)
    requires t.author != userId
    ensures !CanEdit(t, userId, Member) && !CanDelete(t, userId, Member)
  {
  }

  /** `$inc: { viewCount: 1 }` on one record: the count goes up by exactly
      one and nothing else changes. */
  function Viewed(t: Topic): (r: Topic)
    ensures r.viewCount == t.viewCount + 1
    ensures r.(viewCount := t.viewCount) == t
  {
    t.(viewCount := t.viewCount + 1)
  }
}
