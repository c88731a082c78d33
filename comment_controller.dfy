/** backend/Controllers/CommentController.js as functions from the database
    before a request to the database after it and the answer. The caller's
    id comes from the authentication middleware; a malformed ObjectId in a
    route parameter makes Mongoose throw a CastError, which the catch-all
    turns into a 500. */
module CommentController {
  import opened Common
  import opened Collections
  import opened Sorting
  import opened RoadmapItemModel
  import opened CommentModel
  import opened Database

  const ItemNotFound: string := "Roadmap item not found"
  const ParentNotFound: string := "Parent comment not found"
  const DepthExceeded: string := "Maximum reply depth reached (3 levels)"
  const EditNotFound: string := "Comment not found or you don't have permission to edit it"
  const DeleteNotFound: string := "Comment not found or you don't have permission to delete it"

  /** A `parentCommentId` that JavaScript's `if (parentCommentId)` takes. */
  predicate Truthy(s: Option<string>) {
    s.Some? && s.value != ""
  }

  /** The filter `{ _id, user, isDeleted: false }` of edit and delete. */
  predicate Owned(docs: map<Id, Comment>, id: Id, user: Id) {
    id in docs && docs[id].user == user && !docs[id].isDeleted
  }

  // ---------------------------------------------------------------- addComment

  /** `POST /comments/:roadmapItemId`. */
  function AddComment(db: Db, isObjectId: Id -> bool, itemId: Id, userId: Id,
                      content: Option<string>, parentCommentId: Option<string>,
                      newId: Id, now: int): (r: Response<(Id, Comment)>)
    requires db.WellFormed() && newId !in db.comments.docs
    ensures r.db.WellFormed()
    ensures r.out.Ok? ==>
      r.out.value.0 == newId && newId in r.db.comments.docs && r.db.comments.docs[newId] == r.out.value.1
  {
    if !isObjectId(itemId) then Response(db, ServerError)
    else if itemId !in db.items.docs then Response(db, NotFound(ItemNotFound))
    else if !Truthy(parentCommentId) then
      StoreComment(db, itemId, userId, content, None, 0, newId, now)
    else
      var pid := parentCommentId.value;
      if !isObjectId(pid) then Response(db, ServerError)
      else if pid !in db.comments.docs then Response(db, NotFound(ParentNotFound))
      else if db.comments.docs[pid].depth + 1 > MaxDepth then Response(db, BadRequest(DepthExceeded))
      else StoreComment(db, itemId, userId, content, Some(pid), db.comments.docs[pid].depth + 1, newId, now)
  }

  /** Lines 61-76 of addComment: save the new comment, then append its id to
      the parent's `replies` and save the parent, then recount. A parent
      that no longer validates leaves the new comment stored and answers
      500. */
  function StoreComment(db: Db, itemId: Id, userId: Id, content: Option<string>,
                        parent: Option<Id>, depth: int, newId: Id, now: int): (r: Response<(Id, Comment)>)
    requires db.WellFormed() && newId !in db.comments.docs
    requires parent.Some? ==> parent.value in db.comments.docs
    ensures r.db.WellFormed()
    ensures r.out.Ok? ==>
      r.out.value.0 == newId && newId in r.db.comments.docs && r.db.comments.docs[newId] == r.out.value.1
  {
    match SaveComment(NewComment(content, itemId, userId, parent, depth, now), now)
    case None => Response(db, ServerError)
    case Some(saved) =>
      var comments := db.comments.Insert(newId, saved);
      match LinkReply(comments, parent, newId, now)
      case None => Response(db.(comments := comments), ServerError)
      case Some(linked) =>
        Response(Db(UpdateRoadmapItemCommentCount(db.items, linked.docs, itemId), linked, db.votes),
                 Ok((newId, saved)))
  }

  /** `parentComment.replies.push(newComment._id); await parentComment.save()`. */
  function LinkReply(comments: Collection<Comment>, parent: Option<Id>, newId: Id, now: int)
    : (r: Option<Collection<Comment>>)
    requires comments.Valid() && newId in comments.docs
    requires parent.Some? ==> parent.value in comments.docs && parent.value != newId
    ensures r.Some? ==> r.value.Valid() && r.value.order == comments.order
                        && r.value.docs.Keys == comments.docs.Keys
                        && r.value.docs[newId] == comments.docs[newId]
  {
    if parent.None? then Some(comments)
    else
      var p := comments.docs[parent.value];
      match SaveComment(p.(replies := p.replies + [newId]), now)
      case None => None
      case Some(saved) => Some(comments.Update(parent.value, saved))
  }

  /** What StoreComment does: the new comment is stored when it validates;
      the parent then gains the reply, and the commentCount of the item is
      recomputed, when the parent validates too. A parent that does not
      validate leaves the new comment stored without a recount. */
  lemma StoreCommentStores(db: Db, itemId: Id, userId: Id, content: Option<string>,
                           parent: Option<Id>, depth: int, newId: Id, now: int)
    requires db.WellFormed() && newId !in db.comments.docs
    requires parent.Some? ==> parent.value in db.comments.docs
    ensures var r := StoreComment(db, itemId, userId, content, parent, depth, newId, now);
      var c := NewComment(content, itemId, userId, parent, depth, now);
      var docs := db.comments.docs;
      && (r.out.Ok? <==> CommentModel.Validates(c) && (parent.Some? ==> CommentModel.Validates(docs[parent.value])))
      && (!CommentModel.Validates(c) ==> r == Response(db, ServerError))
      && (CommentModel.Validates(c) && !r.out.Ok? ==> r == Response(db.(comments := db.comments.Insert(newId, c)), ServerError))
      && (r.out.Ok? ==>
            && r.out.value == (newId, c)
            && r.db.comments.order == db.comments.order + [newId]
            && r.db.comments.docs
                 == (if parent.Some? then docs[newId := c][parent.value := Linked(docs[parent.value], newId, now)]
                     else docs[newId := c])
            && r.db.items == UpdateRoadmapItemCommentCount(db.items, r.db.comments.docs, itemId)
            && r.db.votes == db.votes)
  {
    var c := NewComment(content, itemId, userId, parent, depth, now);
    if CommentModel.Validates(c) {
      assert SaveComment(c, now) == Some(c);
      if parent.Some? {
        var p := db.comments.docs[parent.value];
        assert CommentModel.Validates(Linked(p, newId, now)) <==> CommentModel.Validates(p);
      }
    }
  }

  /** A top-level comment (no parent id, or an empty one) of a stored item
      is the store step at depth 0. */
  lemma AddCommentTopPath(db: Db, isObjectId: Id -> bool, itemId: Id, userId: Id,
                          content: Option<string>, parentCommentId: Option<string>, newId: Id, now: int)
    requires db.WellFormed() && newId !in db.comments.docs
    requires isObjectId(itemId) && itemId in db.items.docs && !Truthy(parentCommentId)
    ensures AddComment(db, isObjectId, itemId, userId, content, parentCommentId, newId, now)
         == StoreComment(db, itemId, userId, content, None, 0, newId, now)
  {
  }

  /** A request that fails the item, parent or depth checks is refused
      without a write. */
  lemma AddCommentRefused(db: Db, isObjectId: Id -> bool, itemId: Id, userId: Id,
                          content: Option<string>, parentCommentId: Option<string>, newId: Id, now: int)
    requires db.WellFormed() && newId !in db.comments.docs
    requires !isObjectId(itemId) || itemId !in db.items.docs
             || (Truthy(parentCommentId) && !Passes(db, parentCommentId.value, isObjectId))
    ensures var r := AddComment(db, isObjectId, itemId, userId, content, parentCommentId, newId, now);
      r.db == db && !r.out.Ok?
  {
  }

  /** A reply that passes the checks is the store step one level below
      its parent. */
  lemma AddCommentReplyPath(db: Db, isObjectId: Id -> bool, itemId: Id, userId: Id,
                            content: Option<string>, pid: Id, newId: Id, now: int)
    requires db.WellFormed() && newId !in db.comments.docs
    requires isObjectId(itemId) && itemId in db.items.docs && pid != ""
    requires Passes(db, pid, isObjectId)
    ensures AddComment(db, isObjectId, itemId, userId, content, Some(pid), newId, now)
         == StoreComment(db, itemId, userId, content, Some(pid), db.comments.docs[pid].depth + 1, newId, now)
  {
  }

  /** The parent checks of addComment: a well-formed id of a stored comment
      whose replies stay within the depth bound. */
  predicate Passes(db: Db, pid: Id, isObjectId: Id -> bool) {
    isObjectId(pid) && pid in db.comments.docs && db.comments.docs[pid].depth + 1 <= MaxDepth
  }

  /** When every stored comment validates, adding a comment succeeds exactly
      when the item id is well formed and names an item, a given parent id is
      well formed, names a comment and that comment has depth below 2, and
      the trimmed content has 1 to 1000 characters. */
  lemma AddCommentSucceeds(db: Db, isObjectId: Id -> bool, itemId: Id, userId: Id,
                           content: Option<string>, parentCommentId: Option<string>, newId: Id, now: int)
    requires db.WellFormed() && newId !in db.comments.docs && AllValidate(db.comments.docs)
    ensures AddComment(db, isObjectId, itemId, userId, content, parentCommentId, newId, now).out.Ok? <==>
      && isObjectId(itemId) && itemId in db.items.docs
      && (Truthy(parentCommentId) ==>
            && isObjectId(parentCommentId.value)
            && parentCommentId.value in db.comments.docs
            && db.comments.docs[parentCommentId.value].depth < MaxDepth)
      && RequiredWithin(TrimmedContent(content), ContentMaxLength)
  {
    var docs := db.comments.docs;
    if isObjectId(itemId) && itemId in db.items.docs {
      if !Truthy(parentCommentId) {
        StoreCommentStores(db, itemId, userId, content, None, 0, newId, now);
      } else {
        var pid := parentCommentId.value;
        if isObjectId(pid) && pid in docs && docs[pid].depth + 1 <= MaxDepth {
          StoreCommentStores(db, itemId, userId, content, Some(pid), docs[pid].depth + 1, newId, now);
        }
      }
    }
  }

  /** When every stored comment validates, an answer other than 200 changes
      nothing: the one partial write (the reply stored, its parent failing to
      save) cannot happen. */
  lemma AddCommentFailureChangesNothing(db: Db, isObjectId: Id -> bool, itemId: Id, userId: Id,
                                        content: Option<string>, parentCommentId: Option<string>, newId: Id, now: int)
    requires db.WellFormed() && newId !in db.comments.docs && AllValidate(db.comments.docs)
    ensures var r := AddComment(db, isObjectId, itemId, userId, content, parentCommentId, newId, now);
      !r.out.Ok? ==> r.db == db
  {
    var docs := db.comments.docs;
    if isObjectId(itemId) && itemId in db.items.docs {
      if !Truthy(parentCommentId) {
        StoreCommentStores(db, itemId, userId, content, None, 0, newId, now);
      } else {
        var pid := parentCommentId.value;
        if isObjectId(pid) && pid in docs && docs[pid].depth + 1 <= MaxDepth {
          StoreCommentStores(db, itemId, userId, content, Some(pid), docs[pid].depth + 1, newId, now);
        }
      }
    }
  }

  /** What a successful add stores: the new comment with the trimmed
      content, the parent (if any) and its depth plus one, no replies, not
      deleted, stamped `now`, last in natural order; the parent's `replies`
      gain the new id at the end and its `updatedAt` is stamped; no other
      comment changes, votes do not change, and the item's `commentCount` is
      recomputed. */
  lemma AddCommentStores(db: Db, isObjectId: Id -> bool, itemId: Id, userId: Id,
                         content: Option<string>, parentCommentId: Option<string>, newId: Id, now: int)
    requires db.WellFormed() && newId !in db.comments.docs
    ensures var r := AddComment(db, isObjectId, itemId, userId, content, parentCommentId, newId, now);
      var docs := db.comments.docs;
      r.out.Ok? ==>
        var c := r.out.value.1;
        && r.out.value.0 == newId
        && c.content == TrimmedContent(content) && c.roadmapItem == itemId && c.user == userId
        && c.replies == [] && !c.isDeleted && c.createdAt == now && c.updatedAt == now
        && (if Truthy(parentCommentId) then
              var pid := parentCommentId.value;
              && pid in docs && c.parentComment == Some(pid) && c.depth == docs[pid].depth + 1
              && r.db.comments.docs == docs[newId := c][pid := Linked(docs[pid], newId, now)]
            else
              && c.parentComment.None? && c.depth == 0
              && r.db.comments.docs == docs[newId := c])
        && r.db.comments.order == db.comments.order + [newId]
        && r.db.votes == db.votes
        && r.db.items == UpdateRoadmapItemCommentCount(db.items, r.db.comments.docs, itemId)
  {
    var docs := db.comments.docs;
    if isObjectId(itemId) && itemId in db.items.docs {
      if !Truthy(parentCommentId) {
        StoreCommentStores(db, itemId, userId, content, None, 0, newId, now);
      } else {
        var pid := parentCommentId.value;
        if isObjectId(pid) && pid in docs && docs[pid].depth + 1 <= MaxDepth {
          StoreCommentStores(db, itemId, userId, content, Some(pid), docs[pid].depth + 1, newId, now);
        }
      }
    }
  }

  /** Storing a comment of a stored item at its proper place keeps the
      database valid. */
  lemma StoreCommentKeepsValid(db: Db, itemId: Id, userId: Id, content: Option<string>,
                               parent: Option<Id>, depth: int, newId: Id, now: int)
    requires db.Valid() && newId !in db.comments.docs && itemId in db.items.docs
    requires parent.None? ==> depth == 0
    requires parent.Some? ==> parent.value in db.comments.docs && depth == db.comments.docs[parent.value].depth + 1
    ensures StoreComment(db, itemId, userId, content, parent, depth, newId, now).db.Valid()
  {
    var r := StoreComment(db, itemId, userId, content, parent, depth, newId, now);
    var c := NewComment(content, itemId, userId, parent, depth, now);
    var docs := db.comments.docs;
    StoreCommentStores(db, itemId, userId, content, parent, depth, newId, now);
    if parent.Some? {
      assert ValidComment(docs[parent.value]);
    }
    if r.out.Ok? {
      if parent.Some? {
        AddReplyKeepsCommentsValid(docs, db.items.docs.Keys, newId, c, parent.value, now);
      } else {
        AddTopKeepsCommentsValid(docs, db.items.docs.Keys, newId, c);
      }
      RecountKeepsItemsValid(db.items, r.db.comments.docs, itemId);
      assert r.db.items.docs.Keys == db.items.docs.Keys;
    }
  }

  /** Adding a comment keeps the database valid. */
  lemma AddCommentKeepsValid(db: Db, isObjectId: Id -> bool, itemId: Id, userId: Id,
                             content: Option<string>, parentCommentId: Option<string>, newId: Id, now: int)
    requires db.Valid() && newId !in db.comments.docs
    ensures AddComment(db, isObjectId, itemId, userId, content, parentCommentId, newId, now).db.Valid()
  {
    if isObjectId(itemId) && itemId in db.items.docs && Truthy(parentCommentId)
       && Passes(db, parentCommentId.value, isObjectId) {
      ReplyKeepsValid(db, isObjectId, itemId, userId, content, parentCommentId.value, newId, now);
    } else if isObjectId(itemId) && itemId in db.items.docs && !Truthy(parentCommentId) {
      AddCommentTopPath(db, isObjectId, itemId, userId, content, parentCommentId, newId, now);
      StoreCommentKeepsValid(db, itemId, userId, content, None, 0, newId, now);
    } else {
      AddCommentRefused(db, isObjectId, itemId, userId, content, parentCommentId, newId, now);
    }
  }

  /** The reply path of AddCommentKeepsValid. */
  lemma ReplyKeepsValid(db: Db, isObjectId: Id -> bool, itemId: Id, userId: Id,
                        content: Option<string>, pid: Id, newId: Id, now: int)
    requires db.Valid() && newId !in db.comments.docs
    requires isObjectId(itemId) && itemId in db.items.docs && pid != ""
    requires Passes(db, pid, isObjectId)
    ensures AddComment(db, isObjectId, itemId, userId, content, Some(pid), newId, now).db.Valid()
  {
    AddCommentReplyPath(db, isObjectId, itemId, userId, content, pid, newId, now);
    StoreCommentKeepsValid(db, itemId, userId, content, Some(pid), db.comments.docs[pid].depth + 1, newId, now);
  }

  /** The counters after a request that adds a comment to `itemId`: every
      item's `commentCount` is its number of live comments, the count of
      `itemId` grew by one when the answer is 200, and `upvotes` stay in
      sync with the votes. */
  ghost predicate CountsKept<T>(db: Db, r: Response<T>, itemId: Id) {
    && r.db.CommentCountsInSync()
    && (r.out.Ok? ==> itemId in db.items.docs && itemId in r.db.items.docs
                      && r.db.items.docs[itemId].commentCount == db.items.docs[itemId].commentCount + 1)
    && (db.UpvotesInSync() ==> r.db.UpvotesInSync())
  }

  /** Storing a comment whose parent (if any) validates keeps every item's
      `commentCount` equal to its number of live comments and leaves
      `upvotes` alone; on success the item's count grows by one. */
  lemma StoreCommentKeepsCounts(db: Db, itemId: Id, userId: Id, content: Option<string>,
                                parent: Option<Id>, depth: int, newId: Id, now: int)
    requires db.WellFormed() && newId !in db.comments.docs && itemId in db.items.docs && db.CommentCountsInSync()
    requires parent.Some? ==> parent.value in db.comments.docs && CommentModel.Validates(db.comments.docs[parent.value])
    ensures CountsKept(db, StoreComment(db, itemId, userId, content, parent, depth, newId, now), itemId)
  {
    var r := StoreComment(db, itemId, userId, content, parent, depth, newId, now);
    var c := NewComment(content, itemId, userId, parent, depth, now);
    var docs := db.comments.docs;
    StoreCommentStores(db, itemId, userId, content, parent, depth, newId, now);
    if r.out.Ok? {
      var d := r.db.comments.docs;
      var mid := docs[newId := c];
      LiveAfterInsert(docs, newId, c);
      if parent.Some? {
        LiveAfterUpdate(mid, parent.value, Linked(docs[parent.value], newId, now));
      }
      assert forall item :: LiveComments(d, item) == LiveComments(mid, item);
      forall item | item in r.db.items.docs
        ensures r.db.items.docs[item].commentCount == |LiveComments(d, item)|
        ensures r.db.items.docs[item].upvotes == db.items.docs[item].upvotes
      {
        if item != itemId {
          assert r.db.items.docs[item] == db.items.docs[item];
        }
      }
      assert r.db.votes == db.votes;
    } else {
      assert r.db == db;
    }
  }

  /** Adding a comment keeps every item's `commentCount` equal to its number
      of live comments, and keeps `upvotes` as it was. */
  lemma AddCommentKeepsCounts(db: Db, isObjectId: Id -> bool, itemId: Id, userId: Id,
                              content: Option<string>, parentCommentId: Option<string>, newId: Id, now: int)
    requires db.WellFormed() && newId !in db.comments.docs && AllValidate(db.comments.docs)
    requires db.CommentCountsInSync()
    ensures CountsKept(db, AddComment(db, isObjectId, itemId, userId, content, parentCommentId, newId, now), itemId)
  {
    if isObjectId(itemId) && itemId in db.items.docs && Truthy(parentCommentId)
       && Passes(db, parentCommentId.value, isObjectId) {
      ReplyKeepsCounts(db, isObjectId, itemId, userId, content, parentCommentId.value, newId, now);
    } else if isObjectId(itemId) && itemId in db.items.docs && !Truthy(parentCommentId) {
      AddCommentTopPath(db, isObjectId, itemId, userId, content, parentCommentId, newId, now);
      StoreCommentKeepsCounts(db, itemId, userId, content, None, 0, newId, now);
    } else {
      AddCommentRefused(db, isObjectId, itemId, userId, content, parentCommentId, newId, now);
      RefusedKeepsCounts(db, AddComment(db, isObjectId, itemId, userId, content, parentCommentId, newId, now), itemId);
    }
  }

  /** The reply path of AddCommentKeepsCounts. */
  lemma ReplyKeepsCounts(db: Db, isObjectId: Id -> bool, itemId: Id, userId: Id,
                         content: Option<string>, pid: Id, newId: Id, now: int)
    requires db.WellFormed() && newId !in db.comments.docs && AllValidate(db.comments.docs)
    requires db.CommentCountsInSync()
    requires isObjectId(itemId) && itemId in db.items.docs && pid != ""
    requires Passes(db, pid, isObjectId)
    ensures CountsKept(db, AddComment(db, isObjectId, itemId, userId, content, Some(pid), newId, now), itemId)
  {
    AddCommentReplyPath(db, isObjectId, itemId, userId, content, pid, newId, now);
    assert CommentModel.Validates(db.comments.docs[pid]);
    StoreCommentKeepsCounts(db, itemId, userId, content, Some(pid), db.comments.docs[pid].depth + 1, newId, now);
  }

  /** A refused request writes nothing, so the counters stay as they were. */
  lemma RefusedKeepsCounts<T>(db: Db, r: Response<T>, itemId: Id)
    requires db.CommentCountsInSync() && r.db == db && !r.out.Ok?
    ensures CountsKept(db, r, itemId)
  {
  }

  /** Replies are accepted under a soft-deleted parent (the parent is looked
      up by id alone), and such a reply is stored live, so it is counted in
      `commentCount`. */
  lemma ReplyToDeletedParentIsStored(db: Db, isObjectId: Id -> bool, itemId: Id, userId: Id,
                                     content: string, pid: Id, newId: Id, now: int)
    requires db.WellFormed() && newId !in db.comments.docs && AllValidate(db.comments.docs)
    requires isObjectId(itemId) && itemId in db.items.docs
    requires pid != "" && isObjectId(pid) && pid in db.comments.docs
    requires db.comments.docs[pid].isDeleted && db.comments.docs[pid].depth < MaxDepth
    requires RequiredWithin(Trim(content), ContentMaxLength)
    ensures var r := AddComment(db, isObjectId, itemId, userId, Some(content), Some(pid), newId, now);
      && r.out.Ok?
      && newId in LiveComments(r.db.comments.docs, itemId)
      && r.db.comments.docs[pid].isDeleted
  {
    AddCommentSucceeds(db, isObjectId, itemId, userId, Some(content), Some(pid), newId, now);
    AddCommentStores(db, isObjectId, itemId, userId, Some(content), Some(pid), newId, now);
  }

  // --------------------------------------------------------------- editComment

  /** `PUT /comments/:commentId`. */
  function EditComment(db: Db, isObjectId: Id -> bool, commentId: Id, userId: Id,
                       content: Option<string>, now: int): (r: Response<(Id, Comment)>)
    requires db.WellFormed()
    ensures r.db.WellFormed() && r.db.items == db.items && r.db.votes == db.votes
    ensures !r.out.Ok? ==> r.db == db
  {
    if !isObjectId(commentId) then Response(db, ServerError)
    else if !Owned(db.comments.docs, commentId, userId) then Response(db, NotFound(EditNotFound))
    else
      match SaveComment(SetContent(db.comments.docs[commentId], content), now)
      case None => Response(db, ServerError)
      case Some(saved) => Response(db.(comments := db.comments.Update(commentId, saved)), Ok((commentId, saved)))
  }

  /** When every stored comment validates, an edit succeeds exactly when the
      id is well formed, names a live comment of the caller, and the trimmed
      content has 1 to 1000 characters; it then replaces the content and
      stamps `updatedAt`, and nothing else changes. */
  lemma EditCommentSpec(db: Db, isObjectId: Id -> bool, commentId: Id, userId: Id, content: Option<string>, now: int)
    requires db.WellFormed() && AllValidate(db.comments.docs)
    ensures var r := EditComment(db, isObjectId, commentId, userId, content, now);
      && (r.out.Ok? <==>
            isObjectId(commentId) && Owned(db.comments.docs, commentId, userId)
            && RequiredWithin(TrimmedContent(content), ContentMaxLength))
      && (r.out.Ok? ==>
            && r.out.value.0 == commentId
            && r.db.comments.order == db.comments.order
            && r.db.comments.docs == db.comments.docs[commentId :=
                 db.comments.docs[commentId].(content := TrimmedContent(content), updatedAt := now)]
            && r.out.value.1 == r.db.comments.docs[commentId])
  {
    if commentId in db.comments.docs {
      assert CommentModel.Validates(db.comments.docs[commentId]);
    }
  }

  /** Editing keeps the database valid and both counters in sync. */
  lemma EditCommentKeepsInvariants(db: Db, isObjectId: Id -> bool, commentId: Id, userId: Id, content: Option<string>, now: int)
    requires db.Valid()
    ensures var r := EditComment(db, isObjectId, commentId, userId, content, now);
      && r.db.Valid()
      && (db.CommentCountsInSync() ==> r.db.CommentCountsInSync())
      && (db.UpvotesInSync() ==> r.db.UpvotesInSync())
  {
    var r := EditComment(db, isObjectId, commentId, userId, content, now);
    if r.out.Ok? {
      var docs := db.comments.docs;
      var saved := r.db.comments.docs[commentId];
      assert r.db.comments.docs == docs[commentId := saved];
      LiveAfterUpdate(docs, commentId, saved);
      SameShapeKeepsCommentsValid(docs, db.items.docs.Keys, commentId, saved);
    }
  }

  // ------------------------------------------------------------- deleteComment

  /** `DELETE /comments/:commentId`: a soft delete, then a recount of the
      comment's item. */
  function DeleteComment(db: Db, isObjectId: Id -> bool, commentId: Id, userId: Id, now: int): (r: Response<()>)
    requires db.WellFormed()
    ensures r.db.WellFormed() && r.db.votes == db.votes
    ensures !r.out.Ok? ==> r.db == db
  {
    if !isObjectId(commentId) then Response(db, ServerError)
    else if !Owned(db.comments.docs, commentId, userId) then Response(db, NotFound(DeleteNotFound))
    else
      var c := db.comments.docs[commentId];
      match SaveComment(c.(isDeleted := true), now)
      case None => Response(db, ServerError)
      case Some(saved) =>
        var comments := db.comments.Update(commentId, saved);
        Response(Db(UpdateRoadmapItemCommentCount(db.items, comments.docs, c.roadmapItem), comments, db.votes), Ok(()))
  }

  /** When every stored comment validates, a delete succeeds exactly when the
      id is well formed and names a live comment of the caller; only that
      comment changes (marked deleted, `updatedAt` stamped; its replies stay
      as they are) and its item is recounted. */
  lemma DeleteCommentSpec(db: Db, isObjectId: Id -> bool, commentId: Id, userId: Id, now: int)
    requires db.WellFormed() && AllValidate(db.comments.docs)
    ensures var r := DeleteComment(db, isObjectId, commentId, userId, now);
      && (r.out.Ok? <==> isObjectId(commentId) && Owned(db.comments.docs, commentId, userId))
      && (r.out.Ok? ==>
            var c := db.comments.docs[commentId];
            && r.db.comments.order == db.comments.order
            && r.db.comments.docs == db.comments.docs[commentId := c.(isDeleted := true, updatedAt := now)]
            && r.db.items == UpdateRoadmapItemCommentCount(db.items, r.db.comments.docs, c.roadmapItem))
  {
    if commentId in db.comments.docs {
      assert CommentModel.Validates(db.comments.docs[commentId]);
    }
  }

  /** Deleting keeps every `commentCount` in sync, and the item of the
      deleted comment loses exactly one. */
  lemma DeleteCommentKeepsCounts(db: Db, isObjectId: Id -> bool, commentId: Id, userId: Id, now: int)
    requires db.WellFormed() && db.CommentCountsInSync()
    ensures var r := DeleteComment(db, isObjectId, commentId, userId, now);
      && r.db.CommentCountsInSync()
      && (r.out.Ok? ==>
            var item := db.comments.docs[commentId].roadmapItem;
            item in db.items.docs ==> r.db.items.docs[item].commentCount == db.items.docs[item].commentCount - 1)
  {
    var r := DeleteComment(db, isObjectId, commentId, userId, now);
    if r.out.Ok? {
      var docs := db.comments.docs;
      var item := docs[commentId].roadmapItem;
      var saved := r.db.comments.docs[commentId];
      var d := r.db.comments.docs;
      assert d == docs[commentId := saved];
      assert r.db.items == UpdateRoadmapItemCommentCount(db.items, d, item);
      LiveAfterDelete(docs, commentId, saved);
      forall x | x in r.db.items.docs ensures r.db.items.docs[x].commentCount == |LiveComments(d, x)| {
        if x != item {
          assert r.db.items.docs[x] == db.items.docs[x];
        }
      }
    }
  }

  /** Deleting keeps the database valid and `upvotes` in sync. */
  lemma DeleteCommentKeepsValid(db: Db, isObjectId: Id -> bool, commentId: Id, userId: Id, now: int)
    requires db.Valid()
    ensures var r := DeleteComment(db, isObjectId, commentId, userId, now);
      r.db.Valid() && (db.UpvotesInSync() ==> r.db.UpvotesInSync())
  {
    var r := DeleteComment(db, isObjectId, commentId, userId, now);
    if r.out.Ok? {
      var docs := db.comments.docs;
      var saved := r.db.comments.docs[commentId];
      assert ValidComment(docs[commentId]);
      assert r.db.comments.docs == docs[commentId := saved];
      SameShapeKeepsCommentsValid(docs, db.items.docs.Keys, commentId, saved);
      RecountKeepsItemsValid(db.items, r.db.comments.docs, docs[commentId].roadmapItem);
    }
  }

  /** Deleting the same comment again is refused with 404 and changes
      nothing. */
  lemma DeleteTwiceRefused(db: Db, isObjectId: Id -> bool, commentId: Id, userId: Id, now: int, later: int)
    requires db.WellFormed()
    requires DeleteComment(db, isObjectId, commentId, userId, now).out.Ok?
    ensures var once := DeleteComment(db, isObjectId, commentId, userId, now).db;
      DeleteComment(once, isObjectId, commentId, userId, later) == Response(once, NotFound(DeleteNotFound))
  {
  }

  // --------------------------------------------------------------- getComments

  /** `GET /comments/:roadmapItemId`: the live top-level comments of the item,
      newest first, with two levels of live replies populated, oldest
      first. The item itself is not looked up. */
  function GetComments(db: Db, isObjectId: Id -> bool, itemId: Id): (r: Outcome<seq<Node>>)
    requires db.comments.Valid()
    ensures r.Ok? <==> isObjectId(itemId)
  {
    if !isObjectId(itemId) then ServerError
    else Ok(PopulateComments(db.comments.docs, TopLevel(db.comments, itemId), 0))
  }

  /** The filter `{ roadmapItem, parentComment: null, isDeleted: false }`,
      sorted by `createdAt` descending. */
  function TopLevel(comments: Collection<Comment>, itemId: Id): (r: seq<Id>)
    requires comments.Valid()
    ensures NoDuplicates(r)
    ensures forall id :: id in r <==> IsTopLevel(comments.docs, id, itemId)
    ensures SortedBy(r, NewestFirst(comments.docs))
    ensures Stored(comments.docs, r)
  {
    var found := comments.Select((id, c: Comment) => c.roadmapItem == itemId && c.parentComment.None? && !c.isDeleted);
    SortByKeeps(found, NewestFirst(comments.docs));
    SortBy(found, NewestFirst(comments.docs))
  }

  predicate IsTopLevel(docs: map<Id, Comment>, id: Id, itemId: Id) {
    id in docs && docs[id].roadmapItem == itemId && docs[id].parentComment.None? && !docs[id].isDeleted
  }

  /** Sort keys for `{ createdAt: -1 }` and `{ createdAt: 1 }`. */
  function NewestFirst(docs: map<Id, Comment>): Id -> int {
    id => if id in docs then -docs[id].createdAt else 0
  }

  function OldestFirst(docs: map<Id, Comment>): Id -> int {
    id => if id in docs then docs[id].createdAt else 0
  }

  /** The populate of `replies` with `match: { isDeleted: false }` and
      `sort: { createdAt: 1 }`: ids that name no live comment drop out. */
  function LiveReplies(docs: map<Id, Comment>, c: Comment): (r: seq<Id>)
    ensures forall id {:trigger id in r} {:trigger id in c.replies} :: id in r <==> id in c.replies && id in docs && !docs[id].isDeleted
    ensures NoDuplicates(c.replies) ==> NoDuplicates(r)
    ensures SortedBy(r, OldestFirst(docs))
    ensures Stored(docs, r)
  {
    var found := LiveIds(docs, c.replies);
    SortByKeeps(found, OldestFirst(docs));
    var r := SortBy(found, OldestFirst(docs));
    assert forall k :: 0 <= k < |r| ==> r[k] in r;
    r
  }

  function LiveIds(docs: map<Id, Comment>, ids: seq<Id>): (r: seq<Id>)
    ensures forall id {:trigger id in r} {:trigger id in ids} :: id in r <==> id in ids && id in docs && !docs[id].isDeleted
    ensures NoDuplicates(ids) ==> NoDuplicates(r)
  {
    if ids == [] then []
    else
      var rest := LiveIds(docs, ids[1..]);
      assert ids[0] !in ids[1..] || !NoDuplicates(ids);
      if ids[0] in docs && !docs[ids[0]].isDeleted then [ids[0]] + rest else rest
  }

  /** Every id of `ids` names a stored comment. */
  predicate Stored(docs: map<Id, Comment>, ids: seq<Id>) {
    forall k :: 0 <= k < |ids| ==> ids[k] in docs
  }

  /** `populateComments(comments, depth)`: at depth 0 and 1 each comment's
      replies are populated (and recursed into); at depth 2 the comments are
      returned as they are, their `replies` left as ids. */
  function PopulateComments(docs: map<Id, Comment>, ids: seq<Id>, depth: nat): (r: seq<Node>)
    requires depth <= MaxDepth && Stored(docs, ids)
    ensures |r| == |ids|
    ensures forall k :: 0 <= k < |r| ==> r[k].Doc? && r[k].id == ids[k] && r[k].doc == docs[ids[k]]
    decreases MaxDepth - depth, |ids|
  {
    if ids == [] then []
    else [Populated(docs, ids[0], depth)] + PopulateComments(docs, ids[1..], depth)
  }

  function Populated(docs: map<Id, Comment>, id: Id, depth: nat): (n: Node)
    requires depth <= MaxDepth && id in docs
    ensures n.Doc? && n.id == id && n.doc == docs[id]
    decreases MaxDepth - depth, 0
  {
    if depth == MaxDepth then AsNode(id, docs[id])
    else Doc(id, docs[id], PopulateComments(docs, LiveReplies(docs, docs[id]), depth + 1))
  }

  /** Below depth 2 a comment is populated with its live replies one level
      down. */
  lemma PopulatedBelow(docs: map<Id, Comment>, id: Id, depth: nat, kids: seq<Id>, replies: seq<Node>)
    requires depth < MaxDepth && id in docs && kids == LiveReplies(docs, docs[id])
    requires replies == PopulateComments(docs, kids, depth + 1)
    ensures Populated(docs, id, depth) == Doc(id, docs[id], replies)
  {
  }

  lemma {:induction false} PopulateCommentsAt(docs: map<Id, Comment>, ids: seq<Id>, depth: nat, k: nat)
    requires depth <= MaxDepth && Stored(docs, ids) && k < |ids|
    ensures PopulateComments(docs, ids, depth)[k] == Populated(docs, ids[k], depth)
    decreases k
  {
    if k > 0 {
      PopulateCommentsAt(docs, ids[1..], depth, k - 1);
    }
  }

  /** The ids of a sequence of nodes, in order. */
  function Ids(nodes: seq<Node>): (r: seq<Id>)
    ensures |r| == |nodes| && forall k :: 0 <= k < |r| ==> r[k] == nodes[k].id
  {
    seq(|nodes|, k requires 0 <= k < |nodes| => nodes[k].id)
  }

  /** Sort keys of listed documents: `createdAt`, and its negation. */
  function NodeCreated(n: Node): int {
    if n.Doc? then n.doc.createdAt else 0
  }

  function NodeNewest(n: Node): int {
    -NodeCreated(n)
  }

  /** A node of a listing at `level` under the comment `parent` (None at the
      top): a populated, live document at its own depth and under its own
      parent, whose replies are oldest first and shaped one level down. */
  ghost predicate ShapedNode(docs: map<Id, Comment>, n: Node, level: int, parent: Option<Id>)
    decreases n
  {
    && n.Doc?
    && n.id in docs
    && n.doc == docs[n.id]
    && !n.doc.isDeleted
    && n.doc.depth == level
    && n.doc.parentComment == parent
    && SortedBy(n.replies, NodeCreated)
    && Shaped(docs, n.replies, level + 1, Some(n.id))
  }

  ghost predicate Shaped(docs: map<Id, Comment>, nodes: seq<Node>, level: int, parent: Option<Id>)
    decreases nodes
  {
    forall k :: 0 <= k < |nodes| ==> ShapedNode(docs, nodes[k], level, parent)
  }

  /** The ids of the populated documents anywhere in a listing. */
  function NodeIds(n: Node): set<Id>
    decreases n
  {
    match n
    case Raw(_) => {}
    case Doc(id, _, replies) => {id} + TreeIds(replies)
  }

  function TreeIds(nodes: seq<Node>): set<Id>
    decreases nodes
  {
    if nodes == [] then {} else NodeIds(nodes[0]) + TreeIds(nodes[1..])
  }

  /** A live document at its own depth whose replies are oldest first and
      shaped one level down is a shaped node. */
  lemma DocShaped(docs: map<Id, Comment>, id: Id, depth: nat, replies: seq<Node>)
    requires id in docs && !docs[id].isDeleted && docs[id].depth == depth
    requires SortedBy(replies, NodeCreated) && Shaped(docs, replies, depth + 1, Some(id))
    ensures ShapedNode(docs, Doc(id, docs[id], replies), depth, docs[id].parentComment)
  {
  }

  /** In a valid database a comment that is live is listed fully populated
      (no bare ids remain, since a comment at depth 2 has no replies), with
      its live replies oldest first, each shaped one level down. */
  lemma {:induction false} PopulatedShaped(docs: map<Id, Comment>, id: Id, depth: nat)
    requires depth <= MaxDepth
    requires Threaded(docs) && (forall x :: x in docs ==> ValidComment(docs[x]))
    requires id in docs && !docs[id].isDeleted && docs[id].depth == depth
    ensures ShapedNode(docs, Populated(docs, id, depth), depth, docs[id].parentComment)
    decreases MaxDepth - depth, 1
  {
    if depth == MaxDepth {
      LeafShaped(docs, id);
    } else {
      PopulatedShapedBelow(docs, id, depth);
    }
  }

  /** PopulatedShaped below depth 2, by the shape of the replies. */
  lemma {:induction false} PopulatedShapedBelow(docs: map<Id, Comment>, id: Id, depth: nat)
    requires depth < MaxDepth
    requires Threaded(docs) && (forall x :: x in docs ==> ValidComment(docs[x]))
    requires id in docs && !docs[id].isDeleted && docs[id].depth == depth
    ensures ShapedNode(docs, Populated(docs, id, depth), depth, docs[id].parentComment)
    decreases MaxDepth - depth, 0
  {
    var kids := LiveReplies(docs, docs[id]);
    LiveRepliesPlaced(docs, id);
    PopulateShaped(docs, kids, depth + 1, Some(id));
    PopulateAscending(docs, kids, depth + 1);
    var replies := PopulateComments(docs, kids, depth + 1);
    PopulatedBelow(docs, id, depth, kids, replies);
    DocShaped(docs, id, depth, replies);
  }

  lemma LeafShaped(docs: map<Id, Comment>, id: Id)
    requires Threaded(docs) && (forall x :: x in docs ==> ValidComment(docs[x]))
    requires id in docs && !docs[id].isDeleted && docs[id].depth == MaxDepth
    ensures ShapedNode(docs, Populated(docs, id, MaxDepth), MaxDepth, docs[id].parentComment)
  {
    DeepestHasNoReplies(docs, id);
    assert Populated(docs, id, MaxDepth).replies == [];
  }

  /** The live replies of a stored comment sit one level below it. */
  lemma LiveRepliesPlaced(docs: map<Id, Comment>, id: Id)
    requires Threaded(docs) && id in docs
    ensures var kids := LiveReplies(docs, docs[id]);
      forall j :: 0 <= j < |kids| ==> LiveAt(docs, kids[j], docs[id].depth + 1, Some(id))
  {
    assert ThreadedAt(docs, id);
    var kids := LiveReplies(docs, docs[id]);
    forall j | 0 <= j < |kids| ensures LiveAt(docs, kids[j], docs[id].depth + 1, Some(id)) {
      assert kids[j] in kids;
      assert ChildOf(docs, kids[j], id);
    }
  }


  /** Populating ids sorted oldest first lists documents oldest first. */
  lemma PopulateAscending(docs: map<Id, Comment>, ids: seq<Id>, depth: nat)
    requires depth <= MaxDepth && Stored(docs, ids)
    requires SortedBy(ids, OldestFirst(docs))
    ensures SortedBy(PopulateComments(docs, ids, depth), NodeCreated)
  {
    var r := PopulateComments(docs, ids, depth);
    assert forall k :: 0 <= k < |r| ==> NodeCreated(r[k]) == OldestFirst(docs)(ids[k]);
    SortedByCorresponding(r, ids, NodeCreated, OldestFirst(docs));
  }

  /** A live comment stored at `depth` under `parent`. */
  ghost predicate LiveAt(docs: map<Id, Comment>, id: Id, depth: int, parent: Option<Id>) {
    id in docs && !docs[id].isDeleted && docs[id].depth == depth && docs[id].parentComment == parent
  }

  /** Live comments of one depth under one parent are listed in shape. */
  lemma {:induction false} PopulateShaped(docs: map<Id, Comment>, ids: seq<Id>, depth: nat, parent: Option<Id>)
    requires depth <= MaxDepth
    requires Threaded(docs) && (forall x :: x in docs ==> ValidComment(docs[x]))
    requires Stored(docs, ids) && forall k :: 0 <= k < |ids| ==> LiveAt(docs, ids[k], depth, parent)
    ensures Shaped(docs, PopulateComments(docs, ids, depth), depth, parent)
    decreases MaxDepth - depth, 2
  {
    var r := PopulateComments(docs, ids, depth);
    forall k | 0 <= k < |r| ensures ShapedNode(docs, r[k], depth, parent) {
      PopulateCommentsAt(docs, ids, depth, k);
      PopulatedShaped(docs, ids[k], depth);
    }
  }

  /** The listing of a valid database is fully populated and well shaped:
      top-level comments of the item, each with its live replies and theirs,
      at most three levels deep. */
  lemma GetCommentsShape(db: Db, isObjectId: Id -> bool, itemId: Id)
    requires db.comments.Valid() && CommentsValid(db.comments.docs, db.items.docs.Keys) && isObjectId(itemId)
    ensures var r := GetComments(db, isObjectId, itemId);
      && r.Ok?
      && Shaped(db.comments.docs, r.value, 0, None)
      && (forall k :: 0 <= k < |r.value| ==> r.value[k].doc.roadmapItem == itemId)
  {
    var docs := db.comments.docs;
    var top := TopLevel(db.comments, itemId);
    var nodes := PopulateComments(docs, top, 0);
    assert GetComments(db, isObjectId, itemId) == Ok(nodes);
    forall j | 0 <= j < |top| ensures LiveAt(docs, top[j], 0, None) {
      assert top[j] in top;
      assert IsTopLevel(docs, top[j], itemId);
      assert ThreadedAt(docs, top[j]);
    }
    PopulateShaped(docs, top, 0, None);
    forall k | 0 <= k < |nodes| ensures nodes[k].doc.roadmapItem == itemId {
      assert nodes[k].doc == docs[top[k]];
      assert IsTopLevel(docs, top[k], itemId);
    }
  }

  /** The top level of the listing is exactly the live top-level comments of
      the item, each once, newest first. */
  lemma GetCommentsTopLevel(db: Db, isObjectId: Id -> bool, itemId: Id)
    requires db.comments.Valid() && isObjectId(itemId)
    ensures var r := GetComments(db, isObjectId, itemId);
      && r.Ok?
      && NoDuplicates(Ids(r.value))
      && (forall id :: id in Ids(r.value) <==> IsTopLevel(db.comments.docs, id, itemId))
      && (forall i, j :: 0 <= i < j < |r.value| ==> r.value[i].doc.createdAt >= r.value[j].doc.createdAt)
  {
    var docs := db.comments.docs;
    var top := TopLevel(db.comments, itemId);
    var nodes := PopulateComments(docs, top, 0);
    assert GetComments(db, isObjectId, itemId) == Ok(nodes);
    assert Ids(nodes) == top by {
      forall k | 0 <= k < |top| ensures Ids(nodes)[k] == top[k] {
      }
    }
    PopulateDescending(docs, top, 0);
    assert forall i, j :: 0 <= i < j < |nodes| ==> nodes[i].doc.createdAt >= nodes[j].doc.createdAt;
  }

  /** Populating ids sorted newest first lists documents newest first. */
  lemma PopulateDescending(docs: map<Id, Comment>, ids: seq<Id>, depth: nat)
    requires depth <= MaxDepth && Stored(docs, ids)
    requires SortedBy(ids, NewestFirst(docs))
    ensures forall i, j :: 0 <= i < j < |ids| ==>
      PopulateComments(docs, ids, depth)[i].doc.createdAt >= PopulateComments(docs, ids, depth)[j].doc.createdAt
  {
    var r := PopulateComments(docs, ids, depth);
    assert forall k :: 0 <= k < |r| ==> NodeNewest(r[k]) == NewestFirst(docs)(ids[k]);
    SortedByCorresponding(r, ids, NodeNewest, NewestFirst(docs));
    SortedByPairs(r, NodeNewest);
    forall i, j | 0 <= i < j < |r| ensures r[i].doc.createdAt >= r[j].doc.createdAt {
      assert NodeNewest(r[i]) <= NodeNewest(r[j]);
    }
  }

  /** No comment whose parent is soft-deleted appears in a listing below a
      live parent (or at the top). */
  lemma {:induction false} HiddenInNodes(docs: map<Id, Comment>, nodes: seq<Node>, level: int, parent: Option<Id>, x: Id)
    requires Shaped(docs, nodes, level, parent)
    requires parent.Some? ==> parent.value in docs && !docs[parent.value].isDeleted
    requires x in docs && docs[x].parentComment.Some?
    requires docs[x].parentComment.value in docs && docs[docs[x].parentComment.value].isDeleted
    ensures x !in TreeIds(nodes)
    decreases nodes
  {
    if nodes != [] {
      HiddenInNode(docs, nodes[0], level, parent, x);
      assert Shaped(docs, nodes[1..], level, parent) by {
        forall k | 0 <= k < |nodes| - 1 ensures ShapedNode(docs, nodes[1..][k], level, parent) {
          assert nodes[1..][k] == nodes[k + 1];
        }
      }
      HiddenInNodes(docs, nodes[1..], level, parent, x);
    }
  }

  lemma {:induction false} HiddenInNode(docs: map<Id, Comment>, n: Node, level: int, parent: Option<Id>, x: Id)
    requires ShapedNode(docs, n, level, parent)
    requires parent.Some? ==> parent.value in docs && !docs[parent.value].isDeleted
    requires x in docs && docs[x].parentComment.Some?
    requires docs[x].parentComment.value in docs && docs[docs[x].parentComment.value].isDeleted
    ensures x !in NodeIds(n)
    decreases n
  {
    assert x != n.id;
    HiddenInNodes(docs, n.replies, level + 1, Some(n.id), x);
  }

  /** A reply accepted under a soft-deleted parent is stored live and counted
      in `commentCount`, yet never appears in the item's listing. */
  lemma ReplyToDeletedParentIsHidden(db: Db, isObjectId: Id -> bool, itemId: Id, userId: Id,
                                     content: string, pid: Id, newId: Id, now: int)
    requires db.Valid() && newId !in db.comments.docs
    requires isObjectId(itemId) && itemId in db.items.docs
    requires pid != "" && isObjectId(pid) && pid in db.comments.docs
    requires db.comments.docs[pid].isDeleted && db.comments.docs[pid].depth < MaxDepth
    requires RequiredWithin(Trim(content), ContentMaxLength)
    ensures var r := AddComment(db, isObjectId, itemId, userId, Some(content), Some(pid), newId, now);
      && r.out.Ok?
      && newId in LiveComments(r.db.comments.docs, itemId)
      && newId !in TreeIds(GetComments(r.db, isObjectId, itemId).value)
  {
    var r := AddComment(db, isObjectId, itemId, userId, Some(content), Some(pid), newId, now);
    assert AllValidate(db.comments.docs);
    ReplyToDeletedParentIsStored(db, isObjectId, itemId, userId, content, pid, newId, now);
    AddCommentStores(db, isObjectId, itemId, userId, Some(content), Some(pid), newId, now);
    AddCommentKeepsValid(db, isObjectId, itemId, userId, Some(content), Some(pid), newId, now);
    GetCommentsShape(r.db, isObjectId, itemId);
    HiddenInNodes(r.db.comments.docs, GetComments(r.db, isObjectId, itemId).value, 0, None, newId);
  }
}
