/** The document store behind the routes, held in memory: the users by id,
    and the topics and posts in creation order. A record's id is its
    position, rows are never removed (deletion is a flag), and what the
    routes keep true of every stored post is `WellFormed`. */
module Store {
  import opened Common
  import opened PostModel
  import opened TopicModel

  /** Each topic sits at the position given by its id. */
  predicate TopicsIndexed(topics: seq<Topic>) {
    forall i :: 0 <= i < |topics| ==> topics[i].id == i
  }

  /** Post `i` sits at its id, belongs to an existing topic, keeps its
      record invariant, and its level is 0 without a parent and one more
      than its (earlier) parent's with one. */
  predicate PostOk(posts: seq<Post>, i: nat, topicCount: nat)
    requires i < |posts|
  {
    var p := posts[i];
    p.id == i && p.topic < topicCount && RecordOk(p) &&
    match p.parentPost
    case None => p.level == 0
    case Some(q) => q < i && p.level == posts[q].level + 1
  }

  predicate WellFormed(posts: seq<Post>, topicCount: nat) {
    forall i :: 0 <= i < |posts| ==> PostOk(posts, i, topicCount)
  }

  /** Two versions of a post with the same place in the thread structure. */
  predicate SameShape(p: Post, q: Post) {
    p.id == q.id && p.topic == q.topic && p.parentPost == q.parentPost && p.level == q.level
  }

  /** Saving a changed post keeps the store well formed as long as the
      change leaves its place in the thread alone and keeps its record
      invariant. */
  lemma ReplaceKeepsWellFormed(posts: seq<Post>, i: nat, p: Post, topicCount: nat)
    requires WellFormed(posts, topicCount) && i < |posts|
    requires SameShape(posts[i], p) && RecordOk(p)
    ensures WellFormed(posts[i := p], topicCount)
  {
    var after := posts[i := p];
    forall j | 0 <= j < |after| ensures PostOk(after, j, topicCount) {
      assert PostOk(posts, j, topicCount);
      if posts[j].parentPost.Some? {
        var q := posts[j].parentPost.value;
        assert after[q].level == posts[q].level;
      }
    }
  }

  /** Appending a new post with the next id keeps the store well formed. */
  lemma AppendKeepsWellFormed(posts: seq<Post>, p: Post, topicCount: nat)
    requires WellFormed(posts, topicCount)
    requires p.id == |posts| && p.topic < topicCount && RecordOk(p)
    requires p.parentPost.None? ==> p.level == 0
    requires p.parentPost.Some? ==> p.parentPost.value < |posts| && p.level == posts[p.parentPost.value].level + 1
    ensures WellFormed(posts + [p], topicCount)
  {
    var after := posts + [p];
    forall j | 0 <= j < |after| ensures PostOk(after, j, topicCount) {
      if j < |posts| {
        assert PostOk(posts, j, topicCount);
        assert after[j] == posts[j];
        if posts[j].parentPost.Some? {
          assert after[posts[j].parentPost.value] == posts[posts[j].parentPost.value];
        }
      } else if p.parentPost.Some? {
        assert after[p.parentPost.value] == posts[p.parentPost.value];
      }
    }
  }

  /** Adding topics keeps the posts well formed. */
  lemma MoreTopicsKeepWellFormed(posts: seq<Post>, topicCount: nat, more: nat)
    requires WellFormed(posts, topicCount) && topicCount <= more
    ensures WellFormed(posts, more)
  {
    forall j | 0 <= j < |posts| ensures PostOk(posts, j, more) {
      assert PostOk(posts, j, topicCount);
    }
  }

  /** The number of ancestors of post `i`, following `parentPost` links. */
  function Depth(posts: seq<Post>, i: nat): nat
    requires i < |posts|
    decreases i
  {
    match posts[i].parentPost
    case None => 0
    case Some(q) => if q < i then Depth(posts, q) + 1 else 0
  }

  /** `level` is the depth of the post in its reply chain: computing
      `parent.level + 1` at each creation numbers every post by how many
      ancestors it has. */
  lemma {:induction false} LevelIsDepth(posts: seq<Post>, topicCount: nat, i: nat)
    requires WellFormed(posts, topicCount) && i < |posts|
    ensures posts[i].level == Depth(posts, i)
    decreases i
  {
    assert PostOk(posts, i, topicCount);
    if posts[i].parentPost.Some? {
      LevelIsDepth(posts, topicCount, posts[i].parentPost.value);
    }
  }

  class Db {
    var users: map<UserId, User>
    var topics: seq<Topic>
    var posts: seq<Post>

    ghost predicate Valid()
      reads this
    {
      TopicsIndexed(topics) && WellFormed(posts, |topics|)
    }

    constructor ()
      ensures Valid()
      ensures users == map[] && topics == [] && posts == []
    {
      users := map[];
      topics := [];
      posts := [];
    }

    /** `Topic.incrementViewCount(id)`: `findByIdAndUpdate` with
        `$inc: { viewCount: 1 }`, which does nothing when no topic has the id. */
    method IncrementViewCount(id: TopicId)
      requires Valid()
      modifies this`topics
      ensures Valid()
      ensures id < |old(topics)| ==> topics == old(topics)[id := Viewed(old(topics)[id])]
      ensures id >= |old(topics)| ==> topics == old(topics)
    {
      if id < |topics| {
        topics := topics[id := Viewed(topics[id])];
      }
    }
  }
}
