# IdeaPulse roadmap: a verified model of the comment, upvote and item core

IdeaPulse is a public product roadmap. Signed-in users browse roadmap items
(proposals with a category, a status and a priority), upvote them, and
discuss them in threaded comments up to three levels deep. The back end is
an Express/Mongoose server over three MongoDB collections: roadmap items,
comments and upvotes. Each item caches two counters, `upvotes` and
`commentCount`. The front end is a React board and an item page. Both keep
local copies of those counters and of the comment tree, and adjust them
after each request.

This project models that core in Dafny and proves what the code promises
about it:

- **Database.** The three collections are maps from ids to records, plus a
  natural order. A `Db` bundles them, with the invariants the controllers
  are meant to keep:
  - every document passes its schema;
  - replies are threaded one level below their parent;
  - each (user, item) pair has at most one vote;
  - both cached counters agree with the stored comments and votes.
- **Controllers.** The comment, upvote and item controllers are functions
  from the database before a request to the database after it, plus the
  answer (`Ok`, `BadRequest`, `NotFound` or `ServerError`).
- **Route handlers.** The handlers that write documents step by step live
  in the class `Backend.Store`. Each of its methods is proved to leave the
  store, and to answer, exactly as the matching controller function says.
- **Board and item page.** The comment forest is a recursive datatype. The
  tree helpers (count, find, update, remove, prepend a reply) and the state
  updates of the handlers are functions over it. The counting loop and the
  search loop are methods with loop invariants; the query builder is a
  method that appends its pairs one after another.
- **Client and server together.** Lemmas tie the two sides: what the client
  shows after a response is what the server now stores.

Ids are strings. Mongoose's `ObjectId.isValid`, and the cast it applies to
ids in queries, are an abstract predicate `isObjectId`. A fresh ObjectId is
a parameter `newId` that is not yet in use. The clock is an integer `now`
(milliseconds).

A malformed id in a comment route, or in `getRoadmapItem`, makes Mongoose
throw a CastError, and a schema validation failure on save throws a
ValidationError. In both cases the catch-all answers 500, so the model
answers `ServerError`.

Mongoose's `maxlength` compares JavaScript's `length`, which counts UTF-16
code units. The model's validators count the same way (`Common.Utf16Length`):
a character beyond U+FFFF counts twice.

## Model

| member | source | states |
|---|---|---|
| Backend.Store.AddComment | backend/Controllers/CommentController.js:26-91 | the handler's writes in sequence (save, push onto the parent's `replies` and save it, recount) leave the store and the answer exactly as CommentController.AddComment gives them; the store stays well formed |
| Backend.Store.StoreComment | backend/Controllers/CommentController.js:61-76 | the save, the push onto the parent's `replies` and the recount leave the store and the answer exactly as CommentController.StoreComment gives them; the store stays well formed |
| Backend.Store.EditComment | backend/Controllers/CommentController.js:93-129 | the handler's writes leave the store and the answer exactly as CommentController.EditComment gives them |
| Backend.Store.DeleteComment | backend/Controllers/CommentController.js:131-165 | the soft delete and recount leave the store and the answer exactly as CommentController.DeleteComment gives them |
| Backend.Store.GetComments | backend/Controllers/CommentController.js:167-193 | the query and populate answer exactly CommentController.GetComments |
| Backend.PopulateComments | backend/Controllers/CommentController.js:17-23 | the loop over the comments of one level builds exactly the listing CommentController.PopulateComments defines |
| Backend.PopulateComment | backend/Controllers/CommentController.js:4-5 | one comment populated as CommentController.Populated defines: at the depth limit its replies are left as bare ids, otherwise its live replies are populated one level down |
| Backend.PopulateReplies | backend/Controllers/CommentController.js:7-15 | below the depth limit, the comment gets its live replies, oldest first, each populated one level down, exactly as CommentController.Populated defines |
| Backend.Store.UpvoteItem | backend/Controllers/UpvoteController.js:5-80 | the delete-or-insert and the `$inc` leave the store and the answer exactly as UpvoteController.UpvoteItem gives them |
| CommentModel.TrimmedContent | backend/Models/Comment.js:5-10 | the `trim` setter: stored content has no whitespace at either end; an absent body field is the empty string |
| CommentModel.Validates | backend/Models/Comment.js:5-31 | the `required`/`maxlength` bound on `content` and `max: 2` on `depth`; a valid content has 1 to 1000 code points, and any content of 1 to 500 code points passes |
| CommentModel.NewComment | backend/Models/Comment.js:4-48 | `new CommentModel`: content through the `trim` setter, the given item, author, parent and depth, and the schema defaults (no replies, not deleted, both timestamps at creation) |
| CommentModel.AstralCharacterCountsTwice | backend/Models/Comment.js:9 | 999 letters and one emoji are 1000 code points but 1001 UTF-16 units, so `maxlength: 1000` rejects them |
| CommentModel.SaveComment | backend/Models/Comment.js:4-53 | a save succeeds exactly when the content is non-empty and at most 1000 UTF-16 code units long and the depth is at most 2; it then stamps `updatedAt` with `now` and changes nothing else |
| CommentModel.SetContent | backend/Controllers/CommentController.js:112 | assigning `content` trims it and leaves every other field as it was |
| CommentModel.NewCommentSaves | backend/Models/Comment.js:4-48 | a new comment saves exactly when its trimmed content is non-empty and at most 1000 UTF-16 code units long and its depth is at most 2; it is then valid, has no replies, is not deleted, and both timestamps are `now` |
| CommentModel.BlankContentRejected | backend/Models/Comment.js:5-10 | content that is absent or only whitespace never saves (`required` after `trim`) |
| CommentModel.Linked | backend/Controllers/CommentController.js:71-74 | the parent gains the new id at the end of `replies` and a fresh `updatedAt`; no other field changes, and validity is kept |
| CommentModel.SaveCommentKeepsValid | backend/Models/Comment.js:50-53 | re-saving a stored comment succeeds and keeps it valid |
| CommentModel.LiveAfterInsert | backend/Models/Comment.js:56-59 | a new live comment adds exactly its id to its item's live comments (count + 1); every other item's set is unchanged |
| CommentModel.LiveAfterUpdate | backend/Models/Comment.js:56-59 | rewriting a comment without changing its item or deletion flag changes no live count |
| CommentModel.LiveAfterDelete | backend/Models/Comment.js:56-59 | soft-deleting a live comment removes exactly it from its item's live comments (count - 1); other items are unchanged |
| CommentModel.UpdateRoadmapItemCommentCount | backend/Models/Comment.js:55-65 | the item's `commentCount` becomes the number of its non-deleted comments at every depth; no other field or item changes; an unknown id changes nothing |
| CommentModel.RecountIdempotent | backend/Models/Comment.js:55-65 | recounting twice is the same as recounting once |
| CommentModel.RecountKeepsItemsValid | backend/Models/Comment.js:61-64 | `findByIdAndUpdate` of `commentCount` keeps every stored item valid |
| CommentModel.AsNode | backend/Controllers/CommentController.js:5 | a comment returned unpopulated keeps its `replies` as bare ids, in order |
| CommentController.AddComment | backend/Controllers/CommentController.js:26-91 | the database stays well formed; a 200 answers the new comment, stored under the fresh id |
| CommentController.StoreComment | backend/Controllers/CommentController.js:61-76 | the same for the save-link-recount tail of the handler |
| CommentController.LinkReply | backend/Controllers/CommentController.js:71-74 | the push keeps the collection valid, the natural order and the ids, and leaves the new comment alone |
| CommentController.StoreCommentStores | backend/Controllers/CommentController.js:61-76 | success exactly when the new comment and the parent validate; an invalid new comment writes nothing; a parent that fails to save leaves the new comment stored and answers 500; on success the exact new documents, the order and the recount |
| CommentController.AddCommentSucceeds | backend/Controllers/CommentController.js:26-91 | with valid stored comments, 200 exactly when: the item id is well formed and names an item; a given parent id is well formed, names a comment and that comment's depth is below 2; the trimmed content is non-empty and at most 1000 UTF-16 code units long |
| CommentController.AddCommentFailureChangesNothing | backend/Controllers/CommentController.js:32-59 | with valid stored comments, every answer but 200 (missing item, missing parent, depth exceeded, validation failure) leaves the database unchanged |
| CommentController.AddCommentStores | backend/Controllers/CommentController.js:40-76 | a reply gets the parent's depth + 1 and the parent; a top-level comment gets depth 0 and no parent; the new id is appended last to the parent's `replies`; nothing else changes but the recount |
| CommentController.StoreCommentKeepsValid | backend/Controllers/CommentController.js:61-76 | storing a comment at its proper depth keeps the database valid |
| CommentController.AddCommentKeepsValid | backend/Controllers/CommentController.js:26-91 | adding a comment keeps the database valid (schemas, threading, unique votes, references) |
| CommentController.StoreCommentKeepsCounts | backend/Controllers/CommentController.js:69-76 | after storing, every `commentCount` equals the live count; on success the item's count grows by one; `upvotes` stay in sync |
| CommentController.AddCommentKeepsCounts | backend/Controllers/CommentController.js:69-76 | the same for the whole handler |
| CommentController.ReplyToDeletedParentIsStored | backend/Controllers/CommentController.js:43-50 | a reply under a soft-deleted parent is accepted and stored live, so it is counted |
| CommentController.ReplyToDeletedParentIsHidden | backend/Controllers/CommentController.js:43-50 | such a reply is counted in `commentCount` yet never appears in the item's listing |
| CommentController.EditComment | backend/Controllers/CommentController.js:93-129 | items and votes never change; every answer but 200 leaves the database unchanged |
| CommentController.EditCommentSpec | backend/Controllers/CommentController.js:99-113 | 200 exactly for a well-formed id of a live comment of the caller whose trimmed content is non-empty and at most 1000 UTF-16 code units long; then only that comment's `content` and `updatedAt` change |
| CommentController.EditCommentKeepsInvariants | backend/Controllers/CommentController.js:112-113 | an edit keeps the database valid and both counters in sync |
| CommentController.DeleteComment | backend/Controllers/CommentController.js:131-165 | votes never change; every answer but 200 leaves the database unchanged |
| CommentController.DeleteCommentSpec | backend/Controllers/CommentController.js:136-152 | 200 exactly for a well-formed id of a live comment of the caller; then only that comment changes (`isDeleted` set, `updatedAt` stamped, replies kept) and its item is recounted |
| CommentController.DeleteCommentKeepsCounts | backend/Controllers/CommentController.js:149-152 | after a delete every `commentCount` equals the live count, and the comment's item has one less |
| CommentController.DeleteCommentKeepsValid | backend/Controllers/CommentController.js:149-152 | a delete keeps the database valid and `upvotes` in sync |
| CommentController.DeleteTwiceRefused | backend/Controllers/CommentController.js:136-147 | deleting the same comment again answers 404 and changes nothing |
| CommentController.GetComments | backend/Controllers/CommentController.js:167-193 | the listing is answered exactly when the item id is well formed |
| CommentController.TopLevel | backend/Controllers/CommentController.js:171-177 | the query returns each live top-level comment of the item exactly once, and nothing else, sorted newest first |
| CommentController.LiveReplies | backend/Controllers/CommentController.js:7-15 | the populated replies are exactly the stored, non-deleted ones among the ids, without repetition, oldest first |
| CommentController.PopulateComments | backend/Controllers/CommentController.js:4-24 | one populated document per id, in order, each the stored comment |
| CommentController.Populated | backend/Controllers/CommentController.js:4-24 | a populated comment is the stored document under its own id (its replies are stated by PopulatedShaped and LeafShaped) |
| CommentController.PopulatedShaped | backend/Controllers/CommentController.js:4-24 | in a valid database a live comment is populated with exactly its live replies, one level down, each under it, down to depth 2 |
| CommentController.LeafShaped | backend/Controllers/CommentController.js:5 | at depth 2 populating stops, and the comment has no replies to lose |
| CommentController.PopulateAscending | backend/Controllers/CommentController.js:14 | replies are listed oldest first |
| CommentController.PopulateShaped | backend/Controllers/CommentController.js:4-24 | every node of a populated level is live, at its depth, under its parent, and so on below it |
| CommentController.GetCommentsShape | backend/Controllers/CommentController.js:167-193 | in a valid database the listing is fully shaped: the item's comments, live replies at each level, at most three levels |
| CommentController.GetCommentsTopLevel | backend/Controllers/CommentController.js:171-179 | the top level lists exactly the item's live top-level comments, each once, in descending `createdAt` |
| CommentController.HiddenInNodes | backend/Controllers/CommentController.js:7-15 | no comment whose parent is soft-deleted appears anywhere in a shaped listing |
| Database.DeepestHasNoReplies | backend/Models/Comment.js:26-35 | in a valid database a comment at depth 2 has no replies |
| Sorting.SortBySorted | backend/Controllers/CommentController.js:177 | `.sort`: the result is sorted by the key |
| Sorting.SortByPermutes | backend/Controllers/CommentController.js:177 | `.sort`: the result is a permutation of the input |
| Sorting.SortByKeeps | backend/Controllers/CommentController.js:177 | `.sort`: sorted, the same members as the input, and no duplicates when the input has none |
| Common.Trim | backend/Models/Comment.js:8 | `String.prototype.trim`: no longer than the input, and no whitespace at either end |
| Common.Utf16Length | backend/Models/Comment.js:9 | the JavaScript `length` that `maxlength` compares: at least the number of code points and at most twice it |
| Common.TrimCutsOnlyWhitespace | backend/Models/Comment.js:8 | what trim removes is a whitespace prefix and a whitespace suffix; the rest is kept as it is |
| Common.TrimIdempotent | backend/Models/Comment.js:8 | trimming a trimmed value changes nothing |
| Common.TrimEmptyIffBlank | frontend/src/pages/RoadmapApp/components/CommentsSection.jsx:47 | `!s.trim()` holds exactly for strings made only of whitespace |
| Common.NatToStringRoundTrip | frontend/src/pages/RoadmapApp/components/CommentComponent.jsx:71 | the decimal rendering of a count reads back as that count |
| UpvoteModel.NewUpvote | backend/Models/Upvote.js:4-19 | a new vote records the user, the item, and `now` as `createdAt` |
| UpvoteModel.InsertVotePairs | backend/Models/Upvote.js:21 | inserting a vote adds exactly its (user, item) pair |
| UpvoteModel.InsertVoteCount | backend/Controllers/UpvoteController.js:55-63 | inserting a vote adds one to its item's live count and to no other |
| UpvoteModel.RemoveVotePairs | backend/Controllers/UpvoteController.js:42-43 | under the unique index, deleting a vote removes exactly its pair |
| UpvoteModel.RemoveVoteCount | backend/Controllers/UpvoteController.js:42-46 | deleting a vote takes one from its item's live count and from no other |
| UpvoteModel.InsertKeepsUnique | backend/Models/Upvote.js:21 | inserting a vote for a pair that had none keeps pairs unique |
| UpvoteController.FindVote | backend/Controllers/UpvoteController.js:37-40 | finds a vote of the pair exactly when the pair has one |
| UpvoteController.IncUpvotes | backend/Controllers/UpvoteController.js:44-46 | `$inc` changes `upvotes` of that item by the delta and nothing else |
| UpvoteController.UpvoteItem | backend/Controllers/UpvoteController.js:5-80 | comments never change; every answer but 200/201 leaves the database unchanged |
| UpvoteController.UpvoteItemRejects | backend/Controllers/UpvoteController.js:10-35 | 400 for a malformed item id, then 400 for a malformed user id, then 404 for a missing item, each without a write; success otherwise |
| UpvoteController.UpvoteItemToggles | backend/Controllers/UpvoteController.js:37-72 | an existing vote is removed (`upvoted: false`, `upvotes` - 1), otherwise one is added (`upvoted: true`, `upvotes` + 1); no other item and no other user's or item's vote changes |
| UpvoteController.UpvoteTwiceRestores | backend/Controllers/UpvoteController.js:42-72 | a second toggle answers the opposite, restores the items and the voting pairs, and restores the database exactly when the first added |
| UpvoteController.AddedThenRemoved | backend/Controllers/UpvoteController.js:42-72 | a toggle that added a vote is exactly undone by the next |
| UpvoteController.RemovedThenAdded | backend/Controllers/UpvoteController.js:42-72 | a toggle that removed a vote is undone by the next, up to the new vote's id and time |
| UpvoteController.UpvoteItemKeepsValid | backend/Controllers/UpvoteController.js:37-63 | a toggle keeps the database valid, the unique index included |
| UpvoteController.UpvoteItemKeepsCounts | backend/Controllers/UpvoteController.js:42-63 | `upvotes` equal to the live count before a toggle stays equal after it; `commentCount` stays in sync |
| UpvoteController.UpvoteItemMovesLiveCount | backend/Controllers/UpvoteController.js:42-63 | a toggle moves the item's live count by + 1 or - 1 as it answers, and no other item's |
| UpvoteController.ItemCountersMoved | backend/Controllers/UpvoteController.js:44-46 | moving `upvotes` by the same delta as the votes keeps every counter in sync |
| UpvoteController.GetUserUpvotes | backend/Controllers/UpvoteController.js:82-120 | 400 for a missing, "undefined" or "null" id, then for a malformed one; otherwise exactly the user's votes, each once |
| UpvoteController.UserUpvotesDistinctItems | backend/Models/Upvote.js:21 | under the unique index a user's votes name distinct items |
| UpvoteController.GetUpvoteCount | backend/Controllers/UpvoteController.js:122-149 | 400 for a malformed id, otherwise the number of stored votes for the id |
| UpvoteController.UpvoteCountMatchesCache | backend/Controllers/UpvoteController.js:133-135 | with counters in sync the live count is the cached `upvotes`, and 0 for an id with no item |
| RoadmapItemModel.SaveItem | backend/Models/RoadmapItem.js:5-64 | a save succeeds exactly when every validator passes (lengths in UTF-16 code units); it then stamps `updatedAt` with `now` and changes nothing else |
| RoadmapItemModel.RequiredWithin | backend/Models/RoadmapItem.js:6-17 | `required` with `maxlength` in UTF-16 units: a passing string has 1 to `maxLength` code points, and any string of at most half that passes |
| RoadmapItemModel.Validates | backend/Models/RoadmapItem.js:5-59 | a valid item has a title of 1 to 100 and a description of 1 to 1000 code points, a category and a status from the enums, and a priority in 1..5 |
| RoadmapItemModel.NewItem | backend/Models/RoadmapItem.js:5-59 | `new RoadmapItemModel`: trimmed strings, the given author, category and status, no upvotes, no comments, both timestamps at creation, priority 3 when absent |
| RoadmapItemModel.NewItemSaves | backend/Models/RoadmapItem.js:5-59 | a new item saves exactly when: the trimmed title is non-empty and at most 100 UTF-16 code units long, and the trimmed description non-empty and at most 1000; category and status are among the enums; the priority, defaulting to 3, lies in 1..5 |
| RoadmapItemModel.NewItemDefaults | backend/Models/RoadmapItem.js:33-58 | a saved new item is valid with trimmed strings, 0 upvotes, 0 comments, priority as given or 3, and both timestamps `now` |
| RoadmapItemModel.SaveItemKeepsValid | backend/Models/RoadmapItem.js:61-64 | saving keeps a valid item valid; saving again at the same instant changes nothing |
| RoadmapItemController.View | backend/Controllers/RoadmapItemController.js:10-19 | an item is sent as stored, with `upvoteCount` the live number of votes for it |
| RoadmapItemController.Views | backend/Controllers/RoadmapItemController.js:10-20 | one view per item, in order |
| RoadmapItemController.GetAllRoadmapItems | backend/Controllers/RoadmapItemController.js:4-20 | one entry per stored item, each the view of a stored item with its live vote count |
| RoadmapItemController.GetAllListsEveryItem | backend/Controllers/RoadmapItemController.js:4-34 | the listing holds every stored item exactly once, unfiltered, each as stored with its live count |
| RoadmapItemController.GetAllNewestFirst | backend/Controllers/RoadmapItemController.js:8 | the listing is in descending `createdAt` |
| RoadmapItemController.ViewsNewestFirst | backend/Controllers/RoadmapItemController.js:8 | views of ids sorted newest first are newest first |
| RoadmapItemController.GetAllCountsMatchCache | backend/Controllers/RoadmapItemController.js:12-14 | with counters in sync each listed `upvoteCount` equals the cached `upvotes` |
| RoadmapItemController.GetRoadmapItem | backend/Controllers/RoadmapItemController.js:36-70 | 500 for a malformed id, 404 for an unknown one, otherwise the stored item with its live count |
| RoadmapItemController.GetItemAgreesWithListing | backend/Controllers/RoadmapItemController.js:36-56 | an item read by id is exactly its entry in the listing |
| CommentsSection.SizeCountsPreorder | frontend/src/pages/RoadmapApp/components/CommentsSection.jsx:34-43 | the size of a forest is the number of comments in its pre-order listing |
| CommentsSection.CountAllComments | frontend/src/pages/RoadmapApp/components/CommentsSection.jsx:34-43 | the loop counts every comment of the forest once, descendants included |
| CommentsSection.Find | frontend/src/pages/RoadmapApp/components/CommentsSection.jsx:116-125 | a comment is found exactly when the id occurs in the forest, and it has that id |
| CommentsSection.FindIsFirstInPreorder | frontend/src/pages/RoadmapApp/components/CommentsSection.jsx:116-125 | the comment found is the first with the id in pre-order |
| CommentsSection.FindCommentInList | frontend/src/pages/RoadmapApp/components/CommentsSection.jsx:116-125 | the loop with early return answers exactly `Find` |
| CommentsSection.ApplyAt | frontend/src/pages/RoadmapApp/components/CommentsSection.jsx:127-144 | the length is kept; a top-level comment with the id is rewritten without searching below it; every other top-level comment keeps its own fields (nested comments: ApplyAtKeepsOthers) |
| CommentsSection.ApplyAtAbsent | frontend/src/pages/RoadmapApp/components/CommentsSection.jsx:127-144 | a forest without the id is unchanged |
| CommentsSection.FindAfterApplyAt | frontend/src/pages/RoadmapApp/components/CommentsSection.jsx:127-144 | the comment found afterwards is the rewrite of the one found before |
| CommentsSection.ApplyAtSize | frontend/src/pages/RoadmapApp/components/CommentsSection.jsx:127-144 | with unique ids exactly one subtree is rewritten, so the size changes by that subtree's change |
| CommentsSection.ApplyAtKeepsSize | frontend/src/pages/RoadmapApp/components/CommentsSection.jsx:127-144 | a rewrite that keeps replies keeps the size |
| CommentsSection.ApplyAtKeepsOthers | frontend/src/pages/RoadmapApp/components/CommentsSection.jsx:127-144 | when the rewrite keeps the id and the replies, the pre-order listing matches the old one position by position, and every comment without the id, at any depth, keeps all its fields |
| CommentsSection.UpdateCommentInList | frontend/src/pages/RoadmapApp/components/CommentsSection.jsx:127-144 | the top-level length is kept (the other nodes: UpdateKeepsOthers) |
| CommentsSection.Merge | frontend/src/pages/RoadmapApp/components/CommentsSection.jsx:130 | `{ ...comment, ...updated }`: every field the answer carries wins, an answer without `replies` keeps the replies, and an empty answer changes nothing |
| CommentsSection.UpdateMerges | frontend/src/pages/RoadmapApp/components/CommentsSection.jsx:129-131 | a matching comment takes every field of the answer and keeps the rest; a forest without the id is unchanged |
| CommentsSection.FindAfterUpdate | frontend/src/pages/RoadmapApp/components/CommentsSection.jsx:127-144 | the comment found under the id afterwards is the merge of the one before |
| CommentsSection.UpdateKeepsSize | frontend/src/pages/RoadmapApp/components/CommentsSection.jsx:127-144 | an answer without `replies` keeps the forest's size |
| CommentsSection.UpdateKeepsOthers | frontend/src/pages/RoadmapApp/components/CommentsSection.jsx:127-144 | an answer without `replies` that keeps the id leaves the pre-order ids as they were, and every comment without the id, top-level or nested, keeps its id, content, author and timestamps |
| CommentsSection.AddReplyToComment | frontend/src/pages/RoadmapApp/components/CommentsSection.jsx:156-176 | the top-level length is kept |
| CommentsSection.AddReplyPrepends | frontend/src/pages/RoadmapApp/components/CommentsSection.jsx:158-163 | the parent found afterwards has the reply first, then its old replies; without the parent the forest is unchanged |
| CommentsSection.AddReplySize | frontend/src/pages/RoadmapApp/components/CommentsSection.jsx:156-176 | with unique ids the size grows by the reply's size |
| CommentsSection.RemoveCommentFromList | frontend/src/pages/RoadmapApp/components/CommentsSection.jsx:146-154 | no comment with the id remains at any level; the top level does not grow |
| CommentsSection.RemoveAbsent | frontend/src/pages/RoadmapApp/components/CommentsSection.jsx:146-154 | a forest without the id is unchanged |
| CommentsSection.RemoveKeepsOrder | frontend/src/pages/RoadmapApp/components/CommentsSection.jsx:146-154 | the remaining comments keep their relative pre-order |
| CommentsSection.RemoveSize | frontend/src/pages/RoadmapApp/components/CommentsSection.jsx:84-90 | with unique ids removal lowers the size by exactly the removed comment's subtree count, what the handler subtracts |
| CommentsSection.Fetched | frontend/src/pages/RoadmapApp/components/CommentsSection.jsx:23-26 | a fetched listing is shown with its full count |
| CommentsSection.HandleAddComment | frontend/src/pages/RoadmapApp/components/CommentsSection.jsx:46-65 | a blank draft or a failed request changes nothing; otherwise the comment goes first and the count grows by one |
| CommentsSection.AddKeepsSync | frontend/src/pages/RoadmapApp/components/CommentsSection.jsx:55-59 | adding a new comment keeps the count equal to the forest's size |
| CommentsSection.HandleEditComment | frontend/src/pages/RoadmapApp/components/CommentsSection.jsx:67-78 | the count never changes; a failed request changes nothing |
| CommentsSection.EditKeepsSync | frontend/src/pages/RoadmapApp/components/CommentsSection.jsx:70-73 | an edit answer without `replies` keeps the count in sync |
| CommentsSection.HandleDeleteComment | frontend/src/pages/RoadmapApp/components/CommentsSection.jsx:80-95 | a failed request changes nothing; after a delete the id is gone; a comment not on screen takes 1 off the count |
| CommentsSection.DeleteKeepsSync | frontend/src/pages/RoadmapApp/components/CommentsSection.jsx:84-90 | deleting a comment on screen keeps the count in sync when ids are unique |
| CommentsSection.HandleReplyToComment | frontend/src/pages/RoadmapApp/components/CommentsSection.jsx:97-113 | a failed request changes nothing; otherwise the count grows by one, and a missing parent leaves the forest as it was |
| CommentsSection.ReplyKeepsSync | frontend/src/pages/RoadmapApp/components/CommentsSection.jsx:104-109 | a reply added under a parent on screen keeps the count in sync |
| CommentComponent.CanEditMatchesServer | frontend/src/pages/RoadmapApp/components/CommentComponent.jsx:29 | `canEdit` (the signed-in user wrote the comment) is exactly the ownership filter of edit and delete on a live comment |
| CommentComponent.CanEdit | frontend/src/pages/RoadmapApp/components/CommentComponent.jsx:29 | `canEdit` holds exactly when the signed-in user is the comment's author |
| CommentComponent.CanReply | frontend/src/pages/RoadmapApp/components/CommentComponent.jsx:28-30 | `canReply` holds exactly for a signed-in user on a comment at depth 0 to 2, the depths the schema allows a parent to have |
| CommentComponent.ReplyOfferedButRefused | frontend/src/pages/RoadmapApp/components/CommentComponent.jsx:28-30 | the reply box is offered at depth 2 while the server refuses every such reply |
| CommentComponent.CanReplyBelowMaxAgrees | frontend/src/pages/RoadmapApp/components/CommentComponent.jsx:28-30 | a reply bound of depth 2 offers the box exactly where the server does not refuse for depth |
| CommentComponent.HasRepliesIffDescendants | frontend/src/pages/RoadmapApp/components/CommentComponent.jsx:31 | `hasReplies` holds exactly for a comment with descendants |
| CommentComponent.HasReplies | frontend/src/pages/RoadmapApp/components/CommentComponent.jsx:31 | `hasReplies` holds exactly when `replies` is non-empty |
| CommentComponent.AgeOf | frontend/src/pages/RoadmapApp/components/CommentComponent.jsx:64-82 | the buckets: under a minute "Just now"; then whole minutes 1-59, hours 1-23 and days 1-6, each bracketing the elapsed time; from 7 days the locale date |
| CommentComponent.AgeMonotone | frontend/src/pages/RoadmapApp/components/CommentComponent.jsx:64-82 | an older comment is never labelled younger |
| CommentComponent.FormatDate | frontend/src/pages/RoadmapApp/components/CommentComponent.jsx:64-82 | under 60 000 ms the text is "Just now"; from 7 days it is the locale date |
| CommentComponent.AgeTextDistinct | frontend/src/pages/RoadmapApp/components/CommentComponent.jsx:71-77 | two different relative ages are never written alike |
| CommentComponent.IndentationLevels | frontend/src/pages/RoadmapApp/components/CommentComponent.jsx:85-98 | margin and border classes tell depths 0, 1 and 2 apart, and are the same for every depth from 3 |
| CommentComponent.MarginClass | frontend/src/pages/RoadmapApp/components/CommentComponent.jsx:85-90 | the top level has no left margin; every nested depth is indented (`ml-`) |
| CommentComponent.BorderClass | frontend/src/pages/RoadmapApp/components/CommentComponent.jsx:93-98 | every depth has the same two-pixel left border; only its colour varies |
| CommentComponent.RenderedDepths | frontend/src/pages/RoadmapApp/components/CommentComponent.jsx:290-302 | every comment is rendered once, in pre-order, with replies at depth + 1, within the forest's height |
| CommentComponent.Rendered | frontend/src/pages/RoadmapApp/components/CommentComponent.jsx:290-304 | the recursive rendering lists as many comments as the forest holds, none above its starting depth |
| RoadmapApp.BuildQueryParams | frontend/src/pages/RoadmapApp/RoadmapApp.jsx:59-63 | `status` and `category` are present exactly when not "all"; `sort` is always present, last and only once |
| RoadmapApp.Board | frontend/src/pages/RoadmapApp/RoadmapApp.jsx:65-66 | the board holds the server's listing, item for item, with its counts |
| RoadmapApp.BoardMirrors | frontend/src/pages/RoadmapApp/RoadmapApp.jsx:65-66 | a fetched board shows each item's live number of votes |
| RoadmapApp.ApplyUpvote | frontend/src/pages/RoadmapApp/RoadmapApp.jsx:92-103 | only the item with the id changes, its count by + 1 on `upvoted` and - 1 otherwise, a missing count taken as 0 |
| RoadmapApp.ApplyUpvoteMirrorsServer | frontend/src/pages/RoadmapApp/RoadmapApp.jsx:92-103 | a board that showed the live counts before a toggle shows them after it |
| RoadmapApp.ApplyUpvoteUndone | frontend/src/pages/RoadmapApp/RoadmapApp.jsx:92-103 | two opposite answers restore the board, a missing count coming back as 0 |
| RoadmapApp.FetchedUpvotes | frontend/src/pages/RoadmapApp/RoadmapApp.jsx:74-82 | the fetched upvotes name exactly the items the user has a vote for |
| RoadmapApp.ApplyUserUpvote | frontend/src/pages/RoadmapApp/RoadmapApp.jsx:106-110 | on `upvoted` one entry is appended; otherwise every entry for the item is filtered out and the others kept |
| RoadmapApp.WithoutItem | frontend/src/pages/RoadmapApp/RoadmapApp.jsx:109 | the filter keeps exactly the entries for other items |
| RoadmapApp.IsItemUpvoted | frontend/src/pages/RoadmapApp/RoadmapApp.jsx:122-127 | signed out nothing is upvoted; signed in an item is upvoted exactly when the user's upvotes name it |
| RoadmapApp.ApplyUserUpvoteMirrorsServer | frontend/src/pages/RoadmapApp/RoadmapApp.jsx:106-127 | after the answer, `isItemUpvoted` holds exactly for the items the user now has a vote for |
| RoadmapApp.NotUpvotedWhenSignedOut | frontend/src/pages/RoadmapApp/RoadmapApp.jsx:122-127 | signed out no item shows as upvoted |
| RoadmapApp.StatusColor | frontend/src/pages/RoadmapApp/RoadmapApp.jsx:129-138 | any status outside the five keys gets the slate default |
| RoadmapApp.StoredStatusesGetDefault | frontend/src/pages/RoadmapApp/RoadmapApp.jsx:129-138 | every status the schema admits gets the slate default |
| RoadmapApp.SchemaStatusColor | frontend/src/pages/RoadmapApp/RoadmapApp.jsx:129-138 | keyed by schema statuses, any other status gets the default |
| RoadmapApp.SchemaStatusColorsDistinct | frontend/src/pages/RoadmapApp/RoadmapApp.jsx:129-138 | keyed by schema statuses, each stored status gets its own colour, never the default |
| RoadmapDetails.Loaded | frontend/src/pages/RoadmapApp/components/RoadmapDetails.jsx:45-53 | the page holds the item as read, with the comments, and no `userUpvoted` |
| RoadmapDetails.Flip | frontend/src/pages/RoadmapApp/components/RoadmapDetails.jsx:98-102 | `upvotes` - 1 when the page believes the user voted, + 1 otherwise; the belief negated; nothing else changes |
| RoadmapDetails.FlipInvolution | frontend/src/pages/RoadmapApp/components/RoadmapDetails.jsx:98-102 | flipping twice restores the page once it holds a belief; from `undefined` only `userUpvoted` differs |
| RoadmapDetails.HandleUpvote | frontend/src/pages/RoadmapApp/components/RoadmapDetails.jsx:90-104 | signed out nothing changes and nothing is sent; otherwise the page flips and the toggle is sent |
| RoadmapDetails.AddCommentRequest | frontend/src/pages/RoadmapApp/components/RoadmapDetails.jsx:66-78 | a request is sent exactly when signed in with non-blank content, carrying the content and the parent id |
| RoadmapDetails.EditCommentRequest | frontend/src/pages/RoadmapApp/components/RoadmapDetails.jsx:121-125 | a request is sent exactly for non-blank content |
| RoadmapDetails.DisplayedCount | frontend/src/pages/RoadmapApp/components/RoadmapDetails.jsx:246 | `commentCount` when non-zero, else the number of listed comments |
| RoadmapDetails.DisplayedCountIsLiveCount | frontend/src/pages/RoadmapApp/components/RoadmapDetails.jsx:246 | with counters in sync the page shows the item's number of live comments, replies included |
| RoadmapDetails.FirstFlipDisagrees | frontend/src/pages/RoadmapApp/components/RoadmapDetails.jsx:98-102 | for a user who has voted, the first flip shows one more vote while the server removes the vote and stores one less |
| RoadmapDetails.LoadedForUser | frontend/src/pages/RoadmapApp/components/RoadmapDetails.jsx:45-53 | the page loaded with `userUpvoted` set to whether the user has a vote |
| RoadmapDetails.FlipMatchesServer | frontend/src/pages/RoadmapApp/components/RoadmapDetails.jsx:98-104 | loaded so, the flip shows exactly the item the toggle stores and the answer it gives |

## Left out

- Populating `user` and `createdBy` (author profiles) and field projection: the model keeps ids only.
- The HTTP envelope (`success`, `message`), status 201 against 200, and console logging.
- Requests run one at a time. Concurrency and the race in the toggle's read-then-write are not modelled; the unique index is an invariant. Under such a race, two toggles by the same user could both find no vote; the second insert would then break the unique index of backend/Models/Upvote.js:21 and reach the 500 catch of backend/Controllers/UpvoteController.js:73-79.
- JavaScript strings holding an unpaired surrogate: Dafny strings are sequences of Unicode scalar values, so such a string has no counterpart in the model.
- The URL encoding of the query string: `BuildQueryParams` yields the name/value pairs in order.
- The refetches after each request, toasts and alerts, routing, and the loading and submitting flags: these are I/O and UI.
- `CommentsSection.RemoveCommentFromList`: modelled on values. The source reassigns `comment.replies` in place on the previous state's objects, so it also mutates what the old state shares; that aliasing is not captured.
- `CommentsSection.EditKeepsSync`: proved only for an answer without `replies`. The server's edit answer does carry `replies`, as bare ids, and the merge puts them in place of the loaded reply objects. The client datatype has no form for a bare id, so that replacement is not modelled.
- `CommentController.DeleteCommentKeepsCounts`: the loss of exactly one is stated only when the comment's item is stored; a comment of a missing item recounts nothing.
- `RoadmapApp.StatusColor`: a status that names an `Object.prototype` property (such as "constructor") would find a non-string in JavaScript; the model treats every key outside the table as absent.
- `toLocaleDateString` is an opaque parameter string; `Date` parsing and the clock are the integer elapsed milliseconds.
- The user-search, authentication, sign-in and sign-up code, and the markup of every component: they are outside this model.
- `CommentComponent`'s own `handleEdit` and `handleReply` trim guards: they are the same `!s.trim()` guard as RoadmapDetails' `addComment` and `editComment` (`Common.TrimEmptyIffBlank`), around UI state.

## Findings

| source | as written | input that shows it | evidently intended | confidence | as-written member | corrected member |
|---|---|---|---|---|---|---|
| frontend/src/pages/RoadmapApp/components/CommentComponent.jsx:28-30 | `canReply` is `depth < 3`, so the reply box shows on comments at depth 2 | a signed-in user replies to a depth-2 comment: the server answers 400 "Maximum reply depth reached" | offer replies only below depth 2, where the server accepts them | not executed | CommentComponent.ReplyOfferedButRefused | CommentComponent.CanReplyBelowMaxAgrees |
| frontend/src/pages/RoadmapApp/RoadmapApp.jsx:129-138 | the colour table is keyed by display labels ("In Review", "Planned", ...) | any stored item, e.g. status "planned": the lookup misses and the badge is slate | key the table by the schema's values (under_review, planned, ...) | not executed | RoadmapApp.StoredStatusesGetDefault | RoadmapApp.SchemaStatusColorsDistinct |
| frontend/src/pages/RoadmapApp/components/RoadmapDetails.jsx:98-102 | the flip reads `prev.userUpvoted`, which the page never loads | a user who has voted opens the page and clicks the heart: the shown count goes up by one while the server removes the vote and lowers `upvotes` by one | load `userUpvoted` from the user's votes with the item | not executed | RoadmapDetails.FirstFlipDisagrees | RoadmapDetails.FlipMatchesServer |
