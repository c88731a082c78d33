/** The back end as the server runs it: one store holding the three
    collections, whose route handlers write the documents step by step
    (save the new comment, push onto the parent's `replies` and save it,
    recount; flip `isDeleted` and save; delete or insert a vote and `$inc`
    the counter). Each handler is proved to leave the store, and to answer,
    exactly as the matching function of CommentController and
    UpvoteController says, so every lemma proved there holds of the store. */
module Backend {
  import opened Common
  import opened Collections
  import opened RoadmapItemModel
  import opened CommentModel
  import opened UpvoteModel
  import opened Database
  import CommentController
  import UpvoteController

  class Store {
    var items: Collection<RoadmapItem>
    var comments: Collection<Comment>
    var votes: Collection<Upvote>
    /** `mongoose.Types.ObjectId.isValid`, and the cast Mongoose applies to
        an id in a query. */
    const isObjectId: Id -> bool

    function Snapshot(): Db
      reads this
    {
      Db(items, comments, votes)
    }

    constructor (db: Db, isObjectId: Id -> bool)
      requires db.WellFormed()
      ensures Snapshot() == db && this.isObjectId == isObjectId
    {
      items, comments, votes := db.items, db.comments, db.votes;
      this.isObjectId := isObjectId;
    }

    /** `addComment`. */
    method AddComment(itemId: Id, userId: Id, content: Option<string>, parentCommentId: Option<string>,
                      newId: Id, now: int) returns (out: Outcome<(Id, Comment)>)
      requires Snapshot().WellFormed() && newId !in comments.docs
      modifies this
      ensures Snapshot().WellFormed()
      ensures Response(Snapshot(), out)
           == CommentController.AddComment(old(Snapshot()), isObjectId, itemId, userId, content, parentCommentId, newId, now)
    {
      if !isObjectId(itemId) {
        return ServerError;
      }
      if itemId !in items.docs {
        return NotFound(CommentController.ItemNotFound);
      }
      if !CommentController.Truthy(parentCommentId) {
        CommentController.AddCommentTopPath(Snapshot(), isObjectId, itemId, userId, content, parentCommentId, newId, now);
        out := StoreComment(itemId, userId, content, None, 0, newId, now);
        return;
      }
      var pid := parentCommentId.value;
      if !isObjectId(pid) {
        return ServerError;
      }
      if pid !in comments.docs {
        return NotFound(CommentController.ParentNotFound);
      }
      var depth := comments.docs[pid].depth + 1;
      if depth > MaxDepth {
        return BadRequest(CommentController.DepthExceeded);
      }
      CommentController.AddCommentReplyPath(Snapshot(), isObjectId, itemId, userId, content, pid, newId, now);
      out := StoreComment(itemId, userId, content, Some(pid), depth, newId, now);
    }

    /** The writes of `addComment` once the checks pass: save the new
        comment, push its id onto the parent's `replies` and save the
        parent, then recount the item's comments. */
    method StoreComment(itemId: Id, userId: Id, content: Option<string>, parent: Option<Id>, depth: int,
                        newId: Id, now: int) returns (out: Outcome<(Id, Comment)>)
      requires Snapshot().WellFormed() && newId !in comments.docs
      requires parent.Some? ==> parent.value in comments.docs
      modifies this
      ensures Snapshot().WellFormed()
      ensures Response(Snapshot(), out)
           == CommentController.StoreComment(old(Snapshot()), itemId, userId, content, parent, depth, newId, now)
    {
      var saved := SaveComment(NewComment(content, itemId, userId, parent, depth, now), now);
      if saved.None? {
        return ServerError;
      }
      comments := comments.Insert(newId, saved.value);
      if parent.Some? {
        var p := comments.docs[parent.value];
        var linked := SaveComment(p.(replies := p.replies + [newId]), now);
        if linked.None? {
          return ServerError;
        }
        comments := comments.Update(parent.value, linked.value);
      }
      items := UpdateRoadmapItemCommentCount(items, comments.docs, itemId);
      out := Ok((newId, saved.value));
    }

    /** `editComment`. */
    method EditComment(commentId: Id, userId: Id, content: Option<string>, now: int)
      returns (out: Outcome<(Id, Comment)>)
      requires Snapshot().WellFormed()
      modifies this
      ensures Snapshot().WellFormed()
      ensures Response(Snapshot(), out)
           == CommentController.EditComment(old(Snapshot()), isObjectId, commentId, userId, content, now)
    {
      if !isObjectId(commentId) {
        return ServerError;
      }
      if !CommentController.Owned(comments.docs, commentId, userId) {
        return NotFound(CommentController.EditNotFound);
      }
      var comment := comments.docs[commentId];
      comment := SetContent(comment, content);
      var saved := SaveComment(comment, now);
      if saved.None? {
        return ServerError;
      }
      comments := comments.Update(commentId, saved.value);
      out := Ok((commentId, saved.value));
    }

    /** `deleteComment`. */
    method DeleteComment(commentId: Id, userId: Id, now: int) returns (out: Outcome<()>)
      requires Snapshot().WellFormed()
      modifies this
      ensures Snapshot().WellFormed()
      ensures Response(Snapshot(), out)
           == CommentController.DeleteComment(old(Snapshot()), isObjectId, commentId, userId, now)
    {
      if !isObjectId(commentId) {
        return ServerError;
      }
      if !CommentController.Owned(comments.docs, commentId, userId) {
        return NotFound(CommentController.DeleteNotFound);
      }
      var comment := comments.docs[commentId];
      comment := comment.(isDeleted := true);
      var saved := SaveComment(comment, now);
      if saved.None? {
        return ServerError;
      }
      comments := comments.Update(commentId, saved.value);
      items := UpdateRoadmapItemCommentCount(items, comments.docs, comment.roadmapItem);
      out := Ok(());
    }

    /** `getComments`: the top-level query, then `populateComments`. */
    method GetComments(itemId: Id) returns (out: Outcome<seq<Node>>)
      requires comments.Valid()
      ensures out == CommentController.GetComments(Snapshot(), isObjectId, itemId)
    {
      if !isObjectId(itemId) {
        return ServerError;
      }
      var top := CommentController.TopLevel(comments, itemId);
      var nodes := PopulateComments(comments.docs, top, 0);
      out := Ok(nodes);
    }

    /** `upvoteItem`. */
    method UpvoteItem(itemId: Id, userId: Id, newId: Id, now: int) returns (out: Outcome<bool>)
      requires Snapshot().WellFormed() && newId !in votes.docs
      modifies this
      ensures Snapshot().WellFormed()
      ensures Response(Snapshot(), out) == UpvoteController.UpvoteItem(old(Snapshot()), isObjectId, itemId, userId, newId, now)
    {
      if !isObjectId(itemId) {
        return BadRequest(UpvoteController.InvalidItemId);
      }
      if !isObjectId(userId) {
        return BadRequest(UpvoteController.InvalidUserId);
      }
      if itemId !in items.docs {
        return NotFound(UpvoteController.ItemNotFound);
      }
      var existing := UpvoteController.FindVote(votes, userId, itemId);
      if existing.Some? {
        votes := votes.Delete(existing.value);
        items := UpvoteController.IncUpvotes(items, itemId, -1);
        return Ok(false);
      }
      votes := votes.Insert(newId, NewUpvote(userId, itemId, now));
      items := UpvoteController.IncUpvotes(items, itemId, 1);
      out := Ok(true);
    }
  }

  /** `populateComments(comments, depth)` over the comments collection
      `docs`: below depth 2, each comment's `replies` are replaced by its
      live replies, oldest first, and the loop recurses into them; at depth
      2 the comments are returned as they are. */
  method PopulateComments(docs: map<Id, Comment>, ids: seq<Id>, depth: nat) returns (nodes: seq<Node>)
    requires depth <= MaxDepth && CommentController.Stored(docs, ids)
    ensures nodes == CommentController.PopulateComments(docs, ids, depth)
    decreases MaxDepth - depth, 2
  {
    ghost var all := CommentController.PopulateComments(docs, ids, depth);
    nodes := [];
    var i := 0;
    while i < |ids|
      invariant 0 <= i <= |ids|
      invariant nodes == all[..i]
    {
      var node := PopulateComment(docs, ids[i], depth);
      CommentController.PopulateCommentsAt(docs, ids, depth, i);
      TakeSnoc(all, i);
      nodes := nodes + [node];
      i := i + 1;
    }
    assert all[..i] == all;
  }

  /** One turn of the loop of `populateComments`: the comment itself at
      depth 2, otherwise the comment with its live replies populated one
      level down. */
  method PopulateComment(docs: map<Id, Comment>, id: Id, depth: nat) returns (node: Node)
    requires depth <= MaxDepth && id in docs
    ensures node == CommentController.Populated(docs, id, depth)
    decreases MaxDepth - depth, 1
  {
    if depth >= MaxDepth {
      node := AsNode(id, docs[id]);
    } else {
      node := PopulateReplies(docs, id, depth);
    }
  }

  /** The populate step below depth 2: the comment's live replies, oldest
      first, each populated one level down. */
  method PopulateReplies(docs: map<Id, Comment>, id: Id, depth: nat) returns (node: Node)
    requires depth < MaxDepth && id in docs
    ensures node == CommentController.Populated(docs, id, depth)
    decreases MaxDepth - depth, 0
  {
    var comment := docs[id];
    var kids := CommentController.LiveReplies(docs, comment);
    var replies := PopulateComments(docs, kids, depth + 1);
    node := Doc(id, comment, replies);
    CommentController.PopulatedBelow(docs, id, depth, kids, replies);
  }
}
