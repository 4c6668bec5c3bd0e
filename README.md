# Forum domain model

A Dafny model of the domain layer of a small discussion forum. It covers topics, posts with one level of replies, likes, reports and a moderation queue. The model spans the Express/Mongoose backend, its stand-alone mock backend and the pure helpers of the browser scripts.

- **Backend.** The document store is a class, `Store.Db`. It holds users by id and topics and posts in creation order. A record's id is its position, and deletion is a flag.
- **Store invariant.** `Db.Valid` holds of every stored post:
  - `likeCount` counts `likes`;
  - nobody likes or reports twice;
  - a reported post has a report;
  - a reply sits one level below an earlier parent.
- **Route handlers.** Each handler is a method that changes the store and returns `Http.Response`. A response is a status and a message, or a success payload. Each handler is built from a pure transition of one record, and the lemmas are stated about those transitions.
- **Listings.** Listings are functions of the stored records: a filter, a sort by a two-part key, then offset pagination.
- **Middlewares.** The content filter and the token gates are modelled with JWT verification and the user lookup as oracle parameters. Clocks are parameters too.
- **Mock backend.** `MockServer.Server` is a class with its two maps and two id counters.
- **Browser scripts.** The form checks, `truncate`, the relative-time label and the pagination and visibility rules are functions. `formatTimeAgo` is a method with its search loop. Lemmas relate each client rule to the backend rule it fronts.

Module layout:

| file | module | source |
|---|---|---|
| common.dfy | `Common` | ids, roles, the user record, request-body truthiness |
| text.dfy | `Text` | `toLowerCase`, `includes`, `trim`, `split` |
| query.dfy | `Query` | query defaults, filter, sort, `skip`/`limit`, `Math.ceil` |
| http.dfy | `Http` | responses, middleware outcomes, the request object |
| moderation.dfy | `Moderation` | backend/middleware/moderation.js |
| auth.dfy | `Auth` | backend/middleware/auth.js |
| post_model.dfy | `PostModel` | backend/models/Post.js |
| topic_model.dfy | `TopicModel` | backend/models/Topic.js |
| store.dfy | `Store` | the stored collections and `incrementViewCount` |
| post_routes.dfy | `PostRoutes` | backend/routes/posts.js |
| topic_routes.dfy | `TopicRoutes` | backend/routes/topics.js |
| mock_server.dfy | `MockServer` | backend/mock-server.js |
| auth_forms.dfy | `AuthForms` | frontend/js/auth.js |
| app.dfy | `App` | frontend/js/app.js |

Where the code and the intent a reader might assume part ways, the model follows the code and a lemma states the difference:

- A locked topic refuses new posts from every role. The page nevertheless keeps the post form enabled for moderators (`App.StaffFormOpenOnLockedTopic`).
- The reported queue is ordered by the time of each post's first report, not its latest.
- Unliking and liking again moves the user to the end of `likes` (`PostRoutes.ToggleTwiceReorders`).
- Deleting a post twice decrements the topic's `postCount` twice, with no floor at zero (`PostRoutes.PostCountBalance`).
- `All` is a wildcard on the main topic list only (`TopicRoutes.AllIsLiteralOnCategoryRoute`).
- Past the last page, the Next button stays enabled although the listing reports nothing more (`App.NextEnabledPastLastPage`).
- The create route finds a topic by id without looking at `isDeleted`, so posts can still be added to a deleted topic that is not locked.
- A parent post is found by id alone, so a reply's parent may belong to another topic.

## Model

| member | source | states |
|---|---|---|
| Text.ToLower | backend/middleware/moderation.js:4 | lower-casing keeps the length and maps each character on its own |
| Text.ToLowerIdempotent | backend/middleware/moderation.js:4 | lower-casing an already lower-cased text changes nothing |
| Text.ToLowerAppend | backend/middleware/moderation.js:4 | lower-casing distributes over concatenation |
| Text.IncludesIff | backend/middleware/moderation.js:5 | `includes` holds exactly when the term occurs at some offset |
| Text.Includes | backend/middleware/moderation.js:5 | `String.prototype.includes`; characterized by `Text.IncludesIff` |
| Text.IncludesMiddle | backend/middleware/moderation.js:5 | a text contains any term placed inside it |
| Text.TrimStart | frontend/js/auth.js:90 | the result is a suffix, everything dropped is white space, and it does not start with white space |
| Text.TrimEnd | frontend/js/auth.js:90 | the result is a prefix, everything dropped is white space, and it does not end with white space |
| Text.Trim | frontend/js/auth.js:90-91 | `trim()`: `TrimEnd` after `TrimStart`; characterized by `Text.TrimEmptyIffBlank` and `Text.TrimIdempotent` |
| Text.TrimEmptyIffBlank | frontend/js/auth.js:96 | a trimmed field is empty exactly when the field is all white space |
| Text.TrimIdempotent | frontend/js/auth.js:90-91 | trimming twice is trimming once |
| Text.Split | backend/middleware/auth.js:6 | `split(' ')` yields at least one piece |
| Text.JoinSplit | backend/middleware/auth.js:6 | joining the pieces with the separator gives back the header |
| Text.SplitPiecesLackSeparator | backend/middleware/auth.js:6 | no piece contains the separator |
| Text.SplitAfterFirst | backend/middleware/auth.js:6 | a separator-free first word is split off intact |
| Text.SplitWithoutSeparator | backend/middleware/auth.js:6 | a header without a space is a single piece |
| Query.ParamOr | backend/routes/posts.js:15-16 | the parameter when sent and non-zero, the default otherwise, always at least 1 |
| Query.CeilDiv | backend/routes/posts.js:58 | the least page count whose pages hold all items |
| Query.Window | backend/mock-server.js:103 | `slice(skip, skip + limit)`: its length and that each item is the one `skip` places further on |
| Query.PageNonEmptyIff | backend/routes/posts.js:17-27 | a page has items exactly when its number is at most the page count |
| Query.HasMoreIff | backend/routes/topics.js:57 | `page < ceil(total / limit)` exactly when items remain after the page |
| Query.ItemOnItsPage | backend/routes/posts.js:17 | item `k` is at position `k % limit` of page `k / limit + 1`, which is one of the `ceil(total / limit)` pages, and no other page's window covers position `k` |
| Query.QuotientOfBlock | backend/routes/posts.js:17 | the page a position falls on is unique: a position inside the block `[q*d, q*d + d)` has quotient `q` |
| Query.Filter | backend/routes/topics.js:41 | the selected items are exactly the members that pass, never more than the input |
| Query.SortBy | backend/routes/topics.js:42 | the store's sort: ordered by the key and a permutation of the input |
| Query.Paginate | backend/routes/posts.js:17-27 | page number, total, `ceil(total / limit)`, exactly as many items as `skip`/`limit` yield (at most `limit`), consecutive from offset `(page - 1) * limit`, non-empty iff within range |
| Query.PageOfSorted | backend/routes/posts.js:25-27 | a page of a sorted listing is sorted and holds only listed items |
| Query.PageOfSortBy | backend/routes/posts.js:25-27 | paging the sorted matches gives the window, at the page's offset, of a key-ordered permutation of the matches |
| Query.SortedPaginate | backend/routes/topics.js:41-44 | `sort`, `skip` and `limit` together: at most `limit` items, sorted by the key, the window at the page offset of a key-ordered permutation of the input, with counts over the whole input |
| Moderation.CheckProfanityIff | backend/middleware/moderation.js:1-6 | the filter flags a text exactly when one of the four terms occurs in its lower-cased form |
| Moderation.CheckProfanity | backend/middleware/moderation.js:3-6 | some listed term is included in the lower-cased text; characterized by `Moderation.CheckProfanityIff` |
| Moderation.EmptyTextNeverFlagged | backend/middleware/moderation.js:10-12 | the empty text is never flagged |
| Moderation.CheckIgnoresCase | backend/middleware/moderation.js:4 | a text and its lower-cased form get the same verdict |
| Moderation.SpamIsFlagged | backend/middleware/moderation.js:1-5 | any text containing `spam` is flagged |
| Moderation.TextToCheck | backend/middleware/moderation.js:10 | the first present of content, title and description, else the empty text |
| Moderation.Classify | backend/middleware/moderation.js:10-15 | flagged, with the fixed reason, exactly when a denylist term occurs in the lower-cased checked text |
| Moderation.CleanContentHidesTitle | backend/middleware/moderation.js:9-10 | clean non-empty content makes the body clean whatever the title says |
| Moderation.AbsentTextNeverFlagged | backend/middleware/moderation.js:10-12 | a body with none of the three fields is never flagged |
| Moderation.ModerationMiddleware | backend/middleware/moderation.js:8-18 | always continues; sets both request fields when flagged and leaves them as they were when clean; on a request not stamped before, the handler reads back exactly the verdict |
| Moderation.StampOf | backend/routes/posts.js:121-122 | the handler sees a flag exactly when `flaggedContent` is true |
| Moderation.StampRoundTrip | backend/middleware/moderation.js:12-15 | a handler reads back exactly the middleware's verdict |
| Auth.BearerTokenOf | backend/middleware/auth.js:6 | the token is the word after the first space, whatever the scheme word |
| Auth.BearerToken | backend/middleware/auth.js:6 | the second piece of `split(' ')`, absent or empty meaning no token; characterized by `Auth.BearerTokenOf`, `Auth.NoSpaceNoToken` and `Auth.TokenHasNoSpace` |
| Auth.NoSpaceNoToken | backend/middleware/auth.js:6-10 | a header with no space carries no token |
| Auth.TokenHasNoSpace | backend/middleware/auth.js:6 | an extracted token contains no space |
| Auth.Authenticate | backend/middleware/auth.js:4-24 | 401 without a token, 401 when it fails to verify, 401 for an unknown user, otherwise that user |
| Auth.AuthMiddleware | backend/middleware/auth.js:4-24 | continues and attaches the user exactly on success, else halts with the decision's status and message |
| Auth.ModeratorGate | backend/middleware/auth.js:26-32 | passes exactly moderators and admins, otherwise 403 |
| Auth.OptionalAgreesWithRequired | backend/middleware/auth.js:35-47 | the optional gate attaches a user exactly when the required gate would accept, and the same user |
| Auth.OptionalUser | backend/middleware/auth.js:37-42 | the user found for a verified token, if any; related to the required gate by `Auth.OptionalAgreesWithRequired` |
| Auth.OptionalAuth | backend/middleware/auth.js:35-47 | always continues, and attaches only the user the required gate would accept |
| PostModel.NewPost | backend/models/Post.js:3-76 | the given id, content, author, topic, parent and level; `createdAt` and `updatedAt` both now; no likes or reports, not deleted, the record invariant, and the moderation flag and reason copied from the verdict |
| PostModel.NewTopLevelPost | backend/models/Post.js:19-27 | a post without a parent is at level 0 |
| PostModel.CanDeleteIsCanEdit | backend/models/Post.js:79-89 | deleting is allowed exactly when editing is |
| PostModel.MemberNonAuthorPowerless | backend/models/Post.js:79-89 | a plain user who is not the author may neither edit nor delete |
| PostModel.StaffMayAlways | backend/models/Post.js:79-89 | moderators and admins may edit and delete every post |
| PostModel.HasLikedIsMembership | backend/models/Post.js:91-93 | `hasLiked` is membership in `likes` |
| PostModel.CanEdit | backend/models/Post.js:79-83 | the author, or a moderator or admin; see `PostModel.StaffMayAlways` and `PostModel.MemberNonAuthorPowerless` |
| PostModel.CanDelete | backend/models/Post.js:85-89 | the same rule as `canEdit`, by `PostModel.CanDeleteIsCanEdit` |
| PostModel.HasLiked | backend/models/Post.js:91-93 | holds exactly when the user is in `likes` |
| TopicModel.NewTopic | backend/models/Topic.js:3-70 | the given fields, zero views and posts, no flags but the verdict's, created and active now |
| TopicModel.CanDeleteIsCanEdit | backend/models/Topic.js:73-83 | deleting a topic is allowed exactly when editing it is |
| TopicModel.CanEdit | backend/models/Topic.js:73-77 | the author, or a moderator or admin; see `TopicModel.MemberNonAuthorPowerless` |
| TopicModel.CanDelete | backend/models/Topic.js:79-83 | the same rule as `canEdit`, by `TopicModel.CanDeleteIsCanEdit` |
| TopicModel.MemberNonAuthorPowerless | backend/models/Topic.js:73-83 | a plain user who is not the author may neither edit nor delete |
| TopicModel.Viewed | backend/models/Topic.js:86-88 | the view count rises by one and nothing else changes |
| Store.Db.IncrementViewCount | backend/models/Topic.js:86-88 | the stored topic with that id is viewed once more, and no id means no change |
| Store.ReplaceKeepsWellFormed | backend/routes/posts.js:185 | saving a post that keeps its place in the thread keeps the store invariant |
| Store.AppendKeepsWellFormed | backend/routes/posts.js:115-125 | saving a new post with the next id and a correct level keeps the store invariant |
| Store.MoreTopicsKeepWellFormed | backend/routes/topics.js:164 | saving a new topic keeps the posts' invariant |
| Store.LevelIsDepth | backend/routes/posts.js:103-113 | every stored post's level is the number of its ancestors |
| PostRoutes.ListThread | backend/routes/posts.js:13-60 | defaults 1 and 20; the listed posts are the window at offset `(page - 1) * limit` of the topic's live top-level posts sorted oldest first; each with exactly its live replies; counts cover top-level posts only |
| PostRoutes.OldestFirstPage | backend/routes/posts.js:17-27 | `sort({ createdAt: 1 })` then the page: oldest first, at most `limit` posts, the window at the page offset of a createdAt-ordered permutation |
| PostRoutes.WithReplies | backend/routes/posts.js:32-46 | each listed post paired with exactly the live posts whose parent it is |
| PostRoutes.ListedRepliesAreLevelOne | backend/routes/posts.js:32-46 | listed posts are at level 0 and their replies at level 1: nesting is one level deep |
| PostRoutes.Edited | backend/routes/posts.js:176-184 | content replaced only when sent, a flag can be set and never cleared, `updatedAt` now, nothing else changes |
| PostRoutes.EditNeverClearsModeration | backend/routes/posts.js:179-182 | an edit never clears `isModerated` |
| PostRoutes.SoftDeleted | backend/routes/posts.js:225-227 | the row is kept, marked deleted with when and by whom, and nothing else changes |
| PostRoutes.SoftDeleteOverwrites | backend/routes/posts.js:209-228 | deleting twice is allowed and the second delete's time and user win |
| PostRoutes.Without | backend/routes/posts.js:266 | every occurrence of the user removed, every other member kept |
| PostRoutes.WithoutKeepsDistinct | backend/routes/posts.js:266 | removing a user from a duplicate-free list keeps it duplicate-free |
| PostRoutes.WithoutMultiset | backend/routes/posts.js:266 | the other members keep their multiplicities |
| PostRoutes.WithLikeToggled | backend/routes/posts.js:262-279 | the liked state flips, `likeCount` equals the length of `likes`, a new like is appended, an unlike removes the user, and the record invariant is kept |
| PostRoutes.ToggleTwiceFromNotLiked | backend/routes/posts.js:262-279 | liking then unliking restores the post exactly |
| PostRoutes.ToggleTwiceFromLiked | backend/routes/posts.js:262-279 | unliking then liking restores the likes as a multiset and the count, with the user moved to the end |
| PostRoutes.ToggleTwiceReorders | backend/routes/posts.js:266-278 | likes `[1, 2]` become `[2, 1]` after two toggles by user 1 |
| PostRoutes.WithReport | backend/routes/posts.js:335-340 | exactly one report appended, the post marked reported, the record invariant kept for a new reporter |
| PostRoutes.Approved | backend/routes/posts.js:420-423 | reports and both moderation flags cleared, nothing else changes |
| PostRoutes.ApprovalAllowsNewReports | backend/routes/posts.js:324-340 | after approval anyone may report again and that report is the only one |
| PostRoutes.WithNewPost | backend/routes/posts.js:129-131 | the topic's post count rises by one, and its last activity and last poster are updated |
| PostRoutes.WithPostRemoved | backend/routes/posts.js:231 | the topic's post count falls by one with no floor |
| PostRoutes.PostCountBalance | backend/routes/posts.js:231 | a delete undoes a create's count; a second delete can take the count below zero |
| PostRoutes.ReportedQueue | backend/routes/posts.js:361-390 | 403 for non-staff; otherwise defaults 1 and 20, and the page is the window at the page's offset of the live reported posts sorted newest first report first, with counts over the whole queue |
| PostRoutes.QueueMembership | backend/routes/posts.js:367-370 | approval removes a post from the queue, a report puts a live post in, and a delete takes it out |
| PostRoutes.CreatePost | backend/routes/posts.js:75-143 | 400, 404 topic, 403 locked for any role, 404 parent, in that order; else a post at the parent's level plus one is appended, and the topic and user counters are updated |
| PostRoutes.EditPost | backend/routes/posts.js:158-192 | 404, then 403 unless the actor may edit; otherwise the stored post is the edited one |
| PostRoutes.SoftDeleteAndCount | backend/routes/posts.js:225-231 | the post is soft deleted and its topic's count falls by one |
| PostRoutes.DeletePost | backend/routes/posts.js:207-236 | 404, then 403 unless the actor may delete; otherwise soft delete and decrement |
| PostRoutes.LikePost | backend/routes/posts.js:251-288 | 404; otherwise the toggled post is stored and the response reports the new state and count |
| PostRoutes.ReportPost | backend/routes/posts.js:303-346 | 400 without a reason before any lookup, 404, 400 for a repeat reporter with reports unchanged, else one report appended |
| PostRoutes.ModeratePost | backend/routes/posts.js:405-449 | 403, 404; `approve` clears the flags, `delete` soft deletes and decrements, anything else is 400 with the post unchanged |
| TopicRoutes.SortedListedOrder | backend/routes/topics.js:42 | sorting by the key puts pinned topics first and then the most recently active |
| TopicRoutes.SortedPage | backend/routes/topics.js:41-49 | the page is the window at the page's offset of the matching topics sorted pinned first then most recent, at most `limit` of them, with counts over all matches |
| TopicRoutes.ListTopics | backend/routes/topics.js:21-58 | defaults 1 and 10; the page is the window at the page's offset of the live topics in the category (unless `All`) that mention the search text, sorted pinned first then recent; `hasMore` exactly when matches remain |
| TopicRoutes.ListCategory | backend/routes/topics.js:71-98 | at most `limit` topics: the window at the page's offset of the live topics of exactly that category in listing order, with their counts |
| TopicRoutes.CategoryRouteAgrees | backend/routes/topics.js:77-80 | for a category other than `All` the two routes list the same page |
| TopicRoutes.AllIsLiteralOnCategoryRoute | backend/routes/topics.js:32 | `All` lists every topic on the main route but only `All` topics on the category route |
| TopicRoutes.Patched | backend/routes/topics.js:204-214 | each sent non-empty field overwrites, tags whenever sent, a flag can be set and never cleared, nothing else changes |
| TopicRoutes.PatchIdempotent | backend/routes/topics.js:204-214 | applying the same update twice equals applying it once |
| TopicRoutes.EmptyPatchIsIdentity | backend/routes/topics.js:206-214 | an empty clean update changes nothing, and no update clears `isModerated` |
| TopicRoutes.Locked | backend/routes/topics.js:269-270 | the lock flag flips and `moderatedBy` is the actor; nothing else changes |
| TopicRoutes.Pinned | backend/routes/topics.js:297-298 | the pin flag flips and `moderatedBy` is the actor; nothing else changes |
| TopicRoutes.ToggleTwiceRestores | backend/routes/topics.js:269-298 | two toggles restore the flag; only `moderatedBy` records them |
| TopicRoutes.LockGovernsPosting | backend/routes/posts.js:95-100 | a lock toggle flips whether the topic takes new posts |
| PostRoutes.AcceptsPosts | backend/routes/posts.js:95-100 | a topic takes posts exactly when it is not locked, whatever the role; see `TopicRoutes.LockGovernsPosting` |
| TopicRoutes.CascadeDeleted | backend/routes/topics.js:245-248 | every post of the topic soft deleted, already deleted ones included; others untouched |
| TopicRoutes.CascadeEffect | backend/routes/topics.js:245-248 | no live post is left in the topic, no other post changes, and the store invariant holds |
| TopicRoutes.CascadeEmptiesThread | backend/routes/topics.js:245-248 | after the cascade the topic's thread listing is empty |
| TopicRoutes.GetTopic | backend/routes/topics.js:115-133 | 404 missing, 404 deleted; otherwise the stored count rises by one and the response shows the new count |
| TopicRoutes.CreateTopic | backend/routes/topics.js:144-181 | 400 unless title and description; otherwise a new topic with category `General` and tags `[]` by default, the verdict copied in, and the user's count raised only when it saves |
| TopicRoutes.UpdateTopic | backend/routes/topics.js:192-219 | 404, then 403 unless the actor may edit; otherwise the patched topic is stored |
| TopicRoutes.DeleteTopic | backend/routes/topics.js:230-250 | 404, then 403 unless the actor may delete; otherwise the topic is flagged deleted, its posts cascade, and its post count is kept |
| TopicRoutes.ToggleLock | backend/routes/topics.js:261-278 | 403 for non-staff, 404; otherwise the lock flips and the new value is returned |
| TopicRoutes.TogglePin | backend/routes/topics.js:289-306 | 403 for non-staff, 404; otherwise the pin flips and the new value is returned |
| MockServer.Server.constructor | backend/mock-server.js:11-15 | both maps empty, both counters at 1 |
| MockServer.Server.MakeUser | backend/mock-server.js:17-33 | issues the counter value as a fresh id, stores a plain user with zero counts under its email, and advances the counter |
| MockServer.Server.Register | backend/mock-server.js:46-60 | 400 for a missing field, 400 for a known email (usernames are not checked), otherwise a new user |
| MockServer.Server.Login | backend/mock-server.js:63-76 | 400 for a missing field, 401 for an unknown email, otherwise the stored user; the password is not compared |
| MockServer.Server.FindById | backend/mock-server.js:87 | the stored user with that id, which is unique, if any |
| MockServer.Server.VerifyToken | backend/mock-server.js:79-94 | 401 without a token, 401 when it fails to verify or names no user, otherwise that user |
| MockServer.Server.ListTopics | backend/mock-server.js:97-113 | insertion order with no filter or sort; exactly the items `slice(skip, skip + limit)` yields, consecutive from the page offset; `ceil` page count; `hasMore` exactly when topics remain |
| MockServer.Server.CreateTopic | backend/mock-server.js:116-162 | 401 decisions in order, 400 without title and description; otherwise a topic with the next id and default fields is appended, and `flagged` is false |
| MockServer.Server.GetTopic | backend/mock-server.js:165-171 | the stored topic unchanged, or 404 |
| AuthForms.LoginGuard | frontend/js/auth.js:36-43 | sends the trimmed email and the password exactly when both are non-empty |
| AuthForms.BlankPasswordAccepted | frontend/js/auth.js:37-40 | a password of spaces is not refused, since it is not trimmed |
| AuthForms.RegisterGuard | frontend/js/auth.js:90-119 | the five checks in order, each with its message, the first failure winning; the body is the trimmed username and email and the password |
| AuthForms.RegisterSubmitIff | frontend/js/auth.js:96-132 | the request is sent exactly when every rule holds |
| AuthForms.SurroundingSpaceIgnored | frontend/js/auth.js:90-91 | spaces around the username and email never change the outcome |
| AuthForms.SubmittedFieldsPresent | frontend/js/auth.js:121-132 | a sent body has all three fields present, as the register route requires |
| App.Truncate | frontend/js/app.js:813-816 | the text when it fits, else its first `length` characters followed by `...` |
| App.TruncateBound | frontend/js/app.js:813-816 | the result is at most `length + 3` long and starts like the text |
| App.TruncateIdempotent | frontend/js/app.js:813-816 | truncating twice is truncating once |
| App.IntervalsDescending | frontend/js/app.js:830-837 | the units are positive and strictly decreasing |
| App.NatToString | frontend/js/app.js:842 | at least one digit, only digits, no leading zero |
| App.NatToStringRoundTrip | frontend/js/app.js:842 | reading the digits back gives the number |
| App.Phrase | frontend/js/app.js:842 | the count, a space, the unit word, an `s` exactly when the count is not 1, and ` ago` |
| App.FirstFitFrom | frontend/js/app.js:839-844 | the first unit from a position on that fits, or none |
| App.UnitFor | frontend/js/app.js:839-846 | the largest unit that fits into the seconds, or none |
| App.QuotientAtLeastOne | frontend/js/app.js:840-841 | `floor(seconds / unit) >= 1` exactly when the unit fits |
| App.FormatTimeAgo | frontend/js/app.js:827-847 | the loop's label equals the largest-fitting-unit label |
| App.TimeAgoLargestUnit | frontend/js/app.js:827-847 | `Just now` exactly under a minute, future times included; otherwise at least one of the unit and none of any larger one |
| App.TimeAgo | frontend/js/app.js:827-847 | the relative-time label; characterized by `App.TimeAgoLargestUnit` and computed by `App.FormatTimeAgo` |
| App.Pagination | frontend/js/app.js:761-780 | nothing for one page; Previous off exactly on page 1, Next off exactly on the last page, each targeting its neighbour |
| App.NextAgreesWithHasMore | frontend/js/app.js:764-777 | on a page in range Next is enabled exactly when the topic listing says `hasMore` |
| App.NextEnabledPastLastPage | frontend/js/app.js:774 | past the last page Next stays enabled although nothing more exists |
| App.TargetsStayInRange | frontend/js/app.js:770-774 | an enabled button asks for a page within range |
| App.TopicFormGuard | frontend/js/app.js:161-168 | sent exactly when the trimmed title and description are non-empty; the body carries them trimmed |
| App.TopicFormPassesCreate | frontend/js/app.js:161-176 | a sent topic never meets the create route's 400 |
| App.BlankTopicRefused | frontend/js/app.js:161-168 | a title of spaces is refused |
| App.PostFormGuard | frontend/js/app.js:485-490 | sent exactly when the trimmed content is non-empty, as a top-level post of the open topic |
| App.ReplyGuard | frontend/js/app.js:535-540 | sent exactly when the trimmed content is non-empty, naming the parent |
| App.PostFormsPassCreateCheck | frontend/js/app.js:485-490 | post and reply are refused alike; a sent one carries content, so the route's 400 never applies |
| App.ReportPrompt | frontend/js/app.js:629-634 | a cancelled or blank reason is refused; otherwise the trimmed reason is sent |
| App.ReportPromptAgreesWithRoute | frontend/js/app.js:631-634 | the page refuses what the route would refuse, with the same message, and sends only acceptable reasons |
| App.LockPinShownIffAllowed | frontend/js/app.js:337-346 | the lock and pin buttons appear exactly for users the route lets through |
| App.ShowLockPin | frontend/js/app.js:334-346 | lock and pin buttons for moderators and admins; see `App.LockPinShownIffAllowed` |
| App.ShowDeleteTopic | frontend/js/app.js:348 | delete topic for the author or staff; see `App.DeleteShownIffAllowed` |
| App.PostFormDisabled | frontend/js/app.js:361 | the post form is disabled on a locked topic except for staff; see `App.MemberFormMatchesRoute` and `App.StaffFormOpenOnLockedTopic` |
| App.ShowReport | frontend/js/app.js:445-446 | report for anyone but the author |
| App.ShowDeletePost | frontend/js/app.js:449 | delete post for the author or staff; see `App.DeleteShownIffAllowed` |
| App.ShowApprove | frontend/js/app.js:453-454 | approve for staff on a flagged post; see `App.ApproveShownOnlyToStaff` |
| App.DeleteShownIffAllowed | frontend/js/app.js:348-354 | the delete buttons appear exactly for users the models let delete |
| App.ApproveShownOnlyToStaff | frontend/js/app.js:453-455 | Approve appears only to staff and only on flagged posts |
| App.MemberFormMatchesRoute | frontend/js/app.js:361-371 | for members the form is disabled exactly when the route would refuse the post |
| App.StaffFormOpenOnLockedTopic | frontend/js/app.js:361-371 | staff see an enabled form on a locked topic that the route refuses |

## Left out

- Lower-casing covers ASCII letters only; other characters are kept as they are.
- The topic search is modelled as a case-insensitive substring match. MongoDB `$regex` semantics are not modelled, and the model assumes a search free of regular-expression metacharacters.
- JSON Web Token signing is not modelled. Verification and `User.findById` are oracle parameters, and the user schema file is not part of this model.
- Mongoose `populate`, `lean` and `save` are not modelled: the store holds records directly. Schema-level `trim` and `required` validation is left out, so a field of spaces counts as present.
- The 500 answers of the `catch` blocks are left out, and so are malformed ids (cast errors). Ids are naturals, so an id that names nothing is simply absent.
- Concurrency is left out: the read-modify-write races of the like toggle and the counters cannot occur in a sequential model.
- Negative `page` and `limit` query values are left out. Parameters are optional naturals, and an absent or zero value takes the default.
- Sorting orders by the key only; the relative order of records with equal keys is left unspecified.
- Clocks are parameters. `formatTimeAgo` takes the elapsed milliseconds, and an invalid date (`NaN`) is not modelled. `formatDate` is locale formatting and is left out.
- The DOM, `fetch`, `localStorage`, toasts, `escapeHtml` and the dialogs are left out. A prompt's answer is an optional string. A missing pagination element is not modelled.
- frontend/js/moderation.js is not part of this model: it renders pages, and its time label and pagination repeat those of frontend/js/app.js. backend/scripts are not part of it either.
- The second copies of the mock register, login and verify-token handlers (backend/mock-server.js:173-222) are left out. They repeat the first copies, which the model covers.
- String lengths count characters, not UTF-16 code units.
- TopicRoutes.CreateTopic: whether saving the user's post count fails is a parameter (`userSaved`), since the failure comes from the store.
- The `avatar` field of users and author summaries is left out.
- Middleware refusals have no `success` field; the model gives every refusal the same `Err` shape.
- The login and register requests and the topic-creating responses of the browser scripts are left out beyond the form checks.
