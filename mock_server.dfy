/** The stand-alone mock backend (backend/mock-server.js): two in-memory
    maps, users keyed by email and topics keyed by id, and the two id
    counters, updated by the register, login, token-check and topic
    handlers. Token signing is outside the model; token checking is the
    `Auth.Verifier` oracle. */
module MockServer {
  import opened Common
  import opened Query
  import opened Http
  import Auth

  /** The author summary embedded in a mock topic. */
  datatype AuthorSummary = AuthorSummary(id: UserId, username: string, role: Role)

  /** A topic of the mock store (ids are the counter values). */
  datatype MockTopic = MockTopic(
    id: TopicId,
    title: string,
    description: string,
    category: string,
    tags: seq<string>,
    author: AuthorSummary,
    postCount: int,
    viewCount: int,
    isPinned: bool,
    isLocked: bool,
    isDeleted: bool,
    isModerated: bool,
    moderationReason: string,
    createdAt: Time,
    lastActivity: Time,
    lastPostBy: Option<UserId>)

  /** The create response: the topic and its `flagged` field. */
  datatype Created = Created(topic: MockTopic, flagged: bool)

  /** The topic list response: the page and `hasMore`. */
  datatype MockPage = MockPage(page: Page<MockTopic>, hasMore: bool)

  class Server {
    /** `users`: email to user. */
    var users: map<string, User>
    /** `topics`, in insertion order; the topic at position `i` has id `i + 1`. */
    var topics: seq<MockTopic>
    var idCounter: nat
    var topicIdCounter: nat

    /** Each user is stored under its own email with an id already issued,
        no two users share an id, and the topic counter is one past the
        last topic id. */
    ghost predicate Valid()
      reads this
    {
      idCounter >= 1 &&
      (forall e :: e in users ==> users[e].email == e && 1 <= users[e].id < idCounter) &&
      (forall e1, e2 :: e1 in users && e2 in users && e1 != e2 ==> users[e1].id != users[e2].id) &&
      topicIdCounter == |topics| + 1 &&
      (forall i :: 0 <= i < |topics| ==> topics[i].id == i + 1)
    }

    /** Both maps empty, both counters at 1. */
    constructor ()
      ensures Valid()
      ensures users == map[] && topics == [] && idCounter == 1 && topicIdCounter == 1
    {
      users := map[];
      topics := [];
      idCounter := 1;
      topicIdCounter := 1;
    }

    /** `makeUser`: issues the next id, builds a plain user with zero
        counts, and stores it under its email. */
    method MakeUser(username: string, email: string, now: Time) returns (u: User)
      requires Valid()
      modifies this
      ensures Valid()
      ensures u == User(old(idCounter), username, email, Member, 0, 0, "", now)
      ensures forall e :: e in old(users) && e != email ==> old(users)[e].id != u.id
      ensures users == old(users)[email := u] && idCounter == old(idCounter) + 1
      ensures topics == old(topics) && topicIdCounter == old(topicIdCounter)
    {
      u := User(idCounter, username, email, Member, 0, 0, "", now);
      idCounter := idCounter + 1;
      users := users[email := u];
    }

    /** POST /api/auth/register: 400 when a field is missing, 400 when the
        email is taken (the username is never checked); otherwise a new
        user. */
    method Register(username: Option<string>, email: Option<string>, password: Option<string>, now: Time)
      returns (r: Response<User>)
      requires Valid()
      modifies this
      ensures Valid()
      ensures !Present(username) || !Present(email) || !Present(password) ==>
        r == Err(400, "Please provide all required fields") && unchanged(this)
      ensures Present(username) && Present(email) && Present(password) && email.value in old(users) ==>
        r == Err(400, "Email already exists") && unchanged(this)
      ensures Present(username) && Present(email) && Present(password) && email.value !in old(users) ==>
        r == Ok(201, "User registered (mock)", User(old(idCounter), username.value, email.value, Member, 0, 0, "", now)) &&
        users == old(users)[email.value := r.value] && idCounter == old(idCounter) + 1 &&
        topics == old(topics) && topicIdCounter == old(topicIdCounter)
    {
      if !Present(username) || !Present(email) || !Present(password) {
        return Err(400, "Please provide all required fields");
      }
      if email.value in users {
        return Err(400, "Email already exists");
      }
      var u := MakeUser(username.value, email.value, now);
      r := Ok(201, "User registered (mock)", u);
    }

    /** POST /api/auth/login: 400 when a field is missing, 401 for an
        unknown email; otherwise the stored user. The password is never
        compared with anything. */
    method Login(email: Option<string>, password: Option<string>) returns (r: Response<User>)
      ensures !Present(email) || !Present(password) ==> r == Err(400, "Please provide email and password")
      ensures Present(email) && Present(password) && email.value !in users ==>
        r == Err(401, "Invalid email or password")
      ensures Present(email) && Present(password) && email.value in users ==>
        r == Ok(200, "Login successful (mock)", users[email.value])
    {
      if !Present(email) || !Present(password) {
        return Err(400, "Please provide email and password");
      }
      if email.value !in users {
        return Err(401, "Invalid email or password");
      }
      r := Ok(200, "Login successful (mock)", users[email.value]);
    }

    /** `Array.from(users.values()).find(u => u._id === id)`: the user with
        that id, which is unique. */
    method FindById(id: UserId) returns (u: Option<User>)
      requires Valid()
      ensures u.Some? <==> exists e :: e in users && users[e].id == id
      ensures u.Some? ==> u.value.id == id && u.value.email in users && users[u.value.email] == u.value
    {
      if e :| e in users && users[e].id == id {
        u := Some(users[e]);
      } else {
        u := None;
      }
    }

    /** GET /api/auth/verify-token: 401 without a token, and 401 'Invalid
        token' when it fails to verify or names no stored user; otherwise
        the user. */
    method VerifyToken(header: Option<string>, verify: Auth.Verifier) returns (r: Response<User>)
      requires Valid()
      ensures Auth.BearerToken(header).None? ==> r == Err(401, "No token provided")
      ensures Auth.BearerToken(header).Some? && verify(Auth.BearerToken(header).value).None? ==>
        r == Err(401, "Invalid token")
      ensures Auth.BearerToken(header).Some? && verify(Auth.BearerToken(header).value).Some? ==>
        var id := verify(Auth.BearerToken(header).value).value;
        ((exists e :: e in users && users[e].id == id) <==> r.Ok?) &&
        (r.Ok? ==> r.status == 200 && r.value.id == id && r.value.email in users && users[r.value.email] == r.value) &&
        (r.Err? ==> r == Err(401, "Invalid token"))
    {
      var token := Auth.BearerToken(header);
      if token.None? {
        return Err(401, "No token provided");
      }
      var id := verify(token.value);
      if id.None? {
        return Err(401, "Invalid token");
      }
      var user := FindById(id.value);
      if user.None? {
        return Err(401, "Invalid token");
      }
      r := Ok(200, "", user.value);
    }

    /** GET /api/topics: a page (default 1, 10 per page) of the topics in
        insertion order, with no filter and no sort. */
    function ListTopics(page: Option<nat>, limit: Option<nat>): (r: MockPage)
      reads this
      ensures r.page.currentPage == ParamOr(page, 1) && r.page.total == |topics|
      ensures r.page.totalPages == CeilDiv(|topics|, ParamOr(limit, 10))
      ensures |r.page.items| <= ParamOr(limit, 10)
      ensures |r.page.items| == |Window(topics, Offset(ParamOr(page, 1), ParamOr(limit, 10)), ParamOr(limit, 10))|
      ensures IsSliceAt(r.page.items, topics, Offset(ParamOr(page, 1), ParamOr(limit, 10)))
      ensures r.hasMore <==> ParamOr(page, 1) * ParamOr(limit, 10) < |topics|
    {
      var pg := Paginate(topics, ParamOr(page, 1), ParamOr(limit, 10));
      HasMoreIff(|topics|, ParamOr(page, 1), ParamOr(limit, 10));
      MockPage(pg, pg.currentPage < pg.totalPages)
    }

    /** POST /api/topics: 401 without a token, 401 'User not found' when the
        verified id names no stored user, 401 'Invalid token' when it fails
        to verify, then 400 without title and description; otherwise a new
        topic with the next id and every counter and flag at its default.
        The mock applies no content filter: `flagged` is always false. */
    method CreateTopic(header: Option<string>, verify: Auth.Verifier, title: Option<string>,
                       description: Option<string>, category: Option<string>, tags: Option<seq<string>>, now: Time)
      returns (r: Response<Created>)
      requires Valid()
      modifies this
      ensures Valid()
      ensures users == old(users) && idCounter == old(idCounter)
      ensures r.Err? ==> unchanged(this)
      ensures Auth.BearerToken(header).None? ==> r == Err(401, "Authentication required")
      ensures Auth.BearerToken(header).Some? && verify(Auth.BearerToken(header).value).None? ==>
        r == Err(401, "Invalid token")
      ensures Auth.BearerToken(header).Some? && verify(Auth.BearerToken(header).value).Some? ==>
        var id := verify(Auth.BearerToken(header).value).value;
        (!(exists e :: e in old(users) && old(users)[e].id == id) ==> r == Err(401, "User not found")) &&
        ((exists e :: e in old(users) && old(users)[e].id == id) && (!Present(title) || !Present(description)) ==>
          r == Err(400, "Title and description are required")) &&
        ((exists e :: e in old(users) && old(users)[e].id == id) && Present(title) && Present(description) ==>
          r.Ok? && r.status == 201 && r.message == "Topic created successfully" && !r.value.flagged &&
          var t := r.value.topic;
          t.id == old(topicIdCounter) && t.author.id == id &&
          t.title == title.value && t.description == description.value &&
          t.category == (if Present(category) then category.value else "General") &&
          t.tags == (if tags.Some? then tags.value else []) &&
          t.postCount == 0 && t.viewCount == 0 &&
          !t.isPinned && !t.isLocked && !t.isDeleted && !t.isModerated && t.moderationReason == "" &&
          t.lastPostBy.None? && t.createdAt == now && t.lastActivity == now &&
          topics == old(topics) + [t] && topicIdCounter == old(topicIdCounter) + 1)
    {
      var token := Auth.BearerToken(header);
      if token.None? {
        return Err(401, "Authentication required");
      }
      var id := verify(token.value);
      if id.None? {
        return Err(401, "Invalid token");
      }
      var user := FindById(id.value);
      if user.None? {
        return Err(401, "User not found");
      }
      if !Present(title) || !Present(description) {
        return Err(400, "Title and description are required");
      }
      var u := user.value;
      var t := MockTopic(topicIdCounter, title.value, description.value,
                         if Present(category) then category.value else "General",
                         if tags.Some? then tags.value else [],
                         AuthorSummary(u.id, u.username, u.role),
                         0, 0, false, false, false, false, "", now, now, None);
      topicIdCounter := topicIdCounter + 1;
      topics := topics + [t];
      r := Ok(201, "Topic created successfully", Created(t, false));
    }

    /** GET /api/topics/:id: the stored topic unchanged (no view is
        counted), or 404. */
    function GetTopic(id: TopicId): (r: Response<MockTopic>)
      reads this
      requires Valid()
      ensures r.Ok? <==> exists i :: 0 <= i < |topics| && topics[i].id == id
      ensures r.Ok? ==> r.status == 200 && r.value.id == id && r.value in topics
      ensures r.Err? ==> r == Err(404, "Topic not found")
    {
      if 1 <= id <= |topics| then Ok(200, "", topics[id - 1]) else Err(404, "Topic not found")
    }
  }
}
