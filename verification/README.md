# ForumAPI thread detail and like toggle, in Dafny

This project models the two pieces of logic in the ForumAPI back end that do more than wiring:

- **Thread aggregation** (`GetThreadUseCase.execute`). The use case takes the thread row, its comments, its replies and a like-count lookup. It builds the thread detail from them. Each comment gets the replies that point at it. Soft-deleted comments and replies show a fixed marker instead of their content: `**komentar telah dihapus**` and `**balasan telah dihapus**`. Each reply group is sorted ascending by date, and so is the comment list. The thread's own fields come first, then `comments`.
- **Like toggle** (`AddLikeUseCase.execute`). The use case checks that the thread exists, then that the comment exists in it. Next it validates `{ commentId, owner }` through the `NewLike` entity. Then it reads whether that like exists: it deletes the like if so and inserts it otherwise.

Modules, one per component:

| file | module | models |
|---|---|---|
| `results.dfy` | `Results`, `Errors` | the resolve/reject outcome of a use case, and every error it can reject with |
| `likes_table.dfy` | `LikeTable` | the likes table behind `LikesRepositoryPostgres`, with its `UNIQUE(comment_id, owner)` constraint |
| `new_likes.dfy` | `NewLikes` | the `NewLike` entity's payload check |
| `add_like.dfy` | `AddLike` | `AddLikeUseCase` |
| `sorting.dfy` | `Sorting` | the ascending date sort, and mapping over sequences |
| `records.dfy` | `Records` | thread, comment and reply rows, the detail views, and the two redaction markers |
| `get_thread.dfy` | `GetThread` | `GetThreadUseCase` |
| `scenarios.dfy` | `Scenarios` | the repository's test cases, restated over the model |

Modelling choices:

- The likes table is a sequence of `(comment_id, owner)` keys, one per row, in insertion order. The like relation the use cases see is `Liked(t)`, the set of keys present. Keeping rows, not just a set, lets the uniqueness constraint be a real invariant. It also makes `COUNT(*)` a row count, which equals the number of distinct likes only under that constraint.
- `addLike` is an insert that the uniqueness constraint can refuse (`UniqueViolation`). `deleteLikeByCommentIdAndOwner` deletes every row with the key. `verifyLikeExists` is "the select returned at least one row". `getLikeCountByCommentId` counts rows by comment.
- A payload property is a `Field`: missing (`Absent`), a string (`Text`), or some other value (`NonText`). This lets both `NewLike` errors occur.
- The thread and comment ports are given as the argument values for which `verifyThreadExists` and `verifyCommentExists` resolve (`AddLike.Directory`). The repository answers to `getThreadById`, `getCommentsByThreadId` and `getRepliesByThreadId` are inputs to `GetThread.Execute`. A thread that is not found is `None`. The like-count port is a function from comment id to `nat`. `GetThread.ExecuteOnTable` answers it from the likes table.
- A rejection carries no table, so a failed toggle has no effect. `AddLike.After` is the table the caller sees afterwards.
- Dates are integers, namely the millisecond timestamps `new Date(date)` yields. The code orders comments and replies with `new Date(a.date) - new Date(b.date)`, a numeric comparison.
- The sort is an insertion sort that puts an element before equal-dated ones already placed. That makes it stable, like `Array.prototype.sort`. Only sortedness and permutation are proved. The code leaves the order of equal dates to the sort, and the model promises nothing about it either.
- `AddLikeUseCase` has no catch for a violation of the uniqueness constraint. An insert refused by the constraint propagates as `UniqueViolation`. `AddLike.NoUniqueViolation` shows that a single toggle, with no other toggle interleaved, never reaches this path.

## Model

| member | source | states |
|---|---|---|
| `LikeTable.Select` | src/Infrastructures/repository/LikesRepositoryPostgres.js:22-28 | the select returns one row per occurrence of the key in the table, and nothing else |
| `LikeTable.Exists` | src/Infrastructures/repository/LikesRepositoryPostgres.js:22-31 | `rowCount > 0` holds exactly when the pair is in the like relation |
| `LikeTable.Insert` | src/Infrastructures/repository/LikesRepositoryPostgres.js:10-20 | the insert is refused (unique violation) exactly when the pair is already liked; otherwise it adds one row and the relation gains exactly that pair, keeping uniqueness |
| `LikeTable.Without` | src/Infrastructures/repository/LikesRepositoryPostgres.js:33-40 | the delete removes every row with the key and keeps every other row with its multiplicity |
| `LikeTable.Delete` | src/Infrastructures/repository/LikesRepositoryPostgres.js:33-40 | the relation loses exactly the pair; uniqueness is kept; deleting an absent pair changes nothing |
| `LikeTable.WithoutAbsent` | src/Infrastructures/repository/LikesRepositoryPostgres.js:33-40 | deleting a key with no rows leaves the table as it was |
| `LikeTable.CountFor` | src/Infrastructures/repository/LikesRepositoryPostgres.js:42-50 | the count is at most the table size and is 0 exactly when the comment has no likes |
| `LikeTable.CountIsDistinctLikes` | migrations/1764419042189_create-table-likes.js:29 | under the uniqueness constraint a comment's row count equals its number of distinct (comment, owner) likes |
| `NewLikes.Validate` | src/Domains/likes/entities/_test/NewLikes.test.js:4-23 | success exactly when both properties are strings, and it then carries them; a missing property gives NOT_CONTAIN_NEEDED_PROPERTY; otherwise a non-string gives NOT_MEET_DATA_TYPE_SPECIFICATION (the precedence and the treatment of falsy values are assumed, see Left out) |
| `NewLikes.ValidateExamples` | src/Domains/likes/entities/_test/NewLikes.test.js:3-39 | the entity's three example payloads give the missing-property error, the data-type error and a NewLike with the same fields |
| `AddLike.Execute` | src/Applications/use_case/AddLikeUseCase.js:10-35 | a missing thread gives thread-not-found before anything else; then a missing comment gives comment-not-found; only then validation errors, missing-property before wrong-type; success exactly when all checks pass; one write on the payload's pair, a delete exactly when the pair was liked, and the new table is that write applied |
| `AddLike.ToggleFlips` | src/Applications/use_case/AddLikeUseCase.js:23-34 | an admitted toggle flips the pair's membership in the like relation and leaves every other pair's membership as it was |
| `AddLike.RejectionHasNoEffect` | src/Applications/use_case/AddLikeUseCase.js:14-20 | a request failing an existence check or validation is rejected and leaves the table unchanged |
| `AddLike.NoUniqueViolation` | src/Applications/use_case/AddLikeUseCase.js:23-34 | the toggle only inserts after reading that the pair is absent, so it is never refused by the uniqueness constraint |
| `AddLike.ToggleTwiceRestores` | src/Applications/use_case/AddLikeUseCase.js:23-34 | two admitted toggles of the same pair give back the original like relation |
| `AddLike.LikeThenUnlikeRestoresRows` | src/Applications/use_case/AddLikeUseCase.js:23-34 | liking then unliking a pair that was not liked gives back the exact original rows |
| `AddLike.TogglePreservesUnique` | migrations/1764419042189_create-table-likes.js:29 | any toggle, admitted or rejected, keeps no key in two rows |
| `AddLike.RunPreservesUnique` | migrations/1764419042189_create-table-likes.js:29 | any sequence of toggle requests keeps no key in two rows |
| `AddLike.ToggleSequence` | src/Applications/use_case/AddLikeUseCase.js:23-34 | on an unliked pair, one toggle likes, two unlike, three like again |
| `Sorting.InsertBy` | src/Applications/use_case/GetThreadUseCase.js:37 | inserting into a date-sorted sequence keeps it sorted and adds exactly that element |
| `Sorting.SortBy` | src/Applications/use_case/GetThreadUseCase.js:52 | the result is non-decreasing by date and a permutation of the input |
| `GetThread.RepliesOf` | src/Applications/use_case/GetThreadUseCase.js:27-28 | the group holds each input reply with the comment's id as often as the input does, and no other reply |
| `GetThread.Execute` | src/Applications/use_case/GetThreadUseCase.js:14-58 | a missing thread gives thread-not-found; otherwise the comments are sorted by date, are a permutation of the per-comment details, and are as many as the input comments |
| `GetThread.ProjectReply` | src/Applications/use_case/GetThreadUseCase.js:29-36 | the reply view shows the reply marker when the reply is deleted and its content verbatim otherwise; id, date and username pass through |
| `GetThread.CommentDetail` | src/Applications/use_case/GetThreadUseCase.js:22-49 | the comment view shows the comment marker when the comment is deleted and its content verbatim otherwise; id, username and date pass through; likeCount is the port's answer for its id; its replies are date-sorted and a permutation of the projections of the replies pointing at it |
| `GetThread.ReplyRedaction` | src/Applications/use_case/GetThreadUseCase.js:29-36 | a deleted reply shows the reply marker, any other reply its content; id, date and username pass through |
| `GetThread.DeletedReplyHidesContent` | src/Applications/use_case/GetThreadUseCase.js:31-33 | a deleted reply's view does not depend on its stored content |
| `GetThread.ReplyGrouping` | src/Applications/use_case/GetThreadUseCase.js:27-37 | a comment's replies are sorted by date, are a permutation of the projected matching replies, and are exactly the projections of the input replies with its id |
| `GetThread.NoMatchingReplies` | src/Applications/use_case/GetThreadUseCase.js:27-28 | a comment no reply points at gets `replies: []` |
| `GetThread.CommentRedaction` | src/Applications/use_case/GetThreadUseCase.js:39-48 | a deleted comment shows the comment marker, any other comment its content; id, username and date pass through; likeCount is the port's answer |
| `GetThread.DeletedCommentHidesContent` | src/Applications/use_case/GetThreadUseCase.js:44-46 | a deleted comment's view does not depend on its stored content |
| `GetThread.ThreadFieldsKept` | src/Applications/use_case/GetThreadUseCase.js:54-57 | a found thread succeeds and its id, title, body, date and username come through unchanged |
| `GetThread.CommentsCorrespond` | src/Applications/use_case/GetThreadUseCase.js:21-50 | an output comment is exactly the detail of some input comment, and every input comment's detail is output |
| `GetThread.OneOutputPerComment` | src/Applications/use_case/GetThreadUseCase.js:21-22 | each comment id occurs in the output as often as in the input |
| `GetThread.RepliesUnderTheirComment` | src/Applications/use_case/GetThreadUseCase.js:27-28 | every shown reply is the projection of an input reply pointing at the comment it sits under, which is an input comment; replies to no comment appear nowhere |
| `GetThread.LikeCountsFromPort` | src/Applications/use_case/GetThreadUseCase.js:23-47 | every output comment's likeCount is the port's answer for its id |
| `GetThread.LikeCountsFromTable` | src/Infrastructures/repository/LikesRepositoryPostgres.js:42-50 | with the port answered by a table that satisfies uniqueness, every likeCount is the comment's number of likes |
| `GetThread.NoComments` | src/Applications/use_case/GetThreadUseCase.js:54-57 | a thread without comments gives `comments: []` |
| `Scenarios.OrchestratedThread` | src/Applications/use_case/_test/GetThreadUseCase.test.js:8-137 | the orchestration example: redacted deleted comment and reply, two likes on the first comment, replies in date order |
| `Scenarios.SortedThread` | src/Applications/use_case/_test/GetThreadUseCase.test.js:225-338 | comments and replies given latest first come back earliest first |
| `Scenarios.ToggleRuns` | src/Applications/use_case/_test/AddLikeUseCase.test.js:7-155 | like on an empty table, unlike of an existing like, missing owner, non-string owner |
| `Scenarios.ToggleNotFound` | src/Infrastructures/http/_test/likes.test.js:96-137 | a like request for an unknown thread gives thread-not-found, and one for an unknown comment in a known thread gives comment-not-found |

## Left out

- SQL adapter internals: the `pg` pool, the query text, the `like-${id}` row id generator and the `new Date().toISOString()` row timestamp. Rows are reduced to their `(comment_id, owner)` key.
- The HTTP handler, authentication and the dependency-injection container: they only resolve identifiers and call the use case.
- The abstract `CommentLikeRepository` class: its methods only throw `METHOD_NOT_IMPLEMENTED`. The ports are parameters here.
- The rest of the migration: table creation, `NOT NULL`, the cascading deletes, and the foreign keys on `comment_id` and `owner`, which can also refuse `addLike`. Only the uniqueness constraint is modelled. The handler passes an authenticated user's id as `owner`, and the comment was verified just before the insert. A user row deleted in between would still make the insert fail, and the model does not show that failure.
- Concurrency: the `Promise.all` over like counts, and two toggles racing between the read and the write. Each toggle is modelled as one atomic step.
- `Date` parsing and the `NaN` it gives for malformed dates: dates are integers.
- `parseInt(likeCount, 10)`: the port's count is already a `nat`, and parsing it leaves it unchanged.
- The `NewLike` entity's source file is not part of this model. Its check is modelled from its tests and its call site, which cover only a missing `owner`, the values `123` and `true`, and two strings. Three behaviours are therefore assumed, not known:
  - a present empty string is treated as a string;
  - a present falsy non-string (`null`, `0`, `false`) is treated like any other non-string and gives the data-type error, although an entity that tests presence by truthiness would report the missing-property error instead;
  - a missing property is reported before a property of the wrong type, although no test combines the two.
- Sorting.SortBy: does not state stability or any order among equal dates, although the insertion sort used is stable, because the code relies on `Array.prototype.sort` and does not promise a tie order.
