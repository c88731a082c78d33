/** The three MongoDB collections the core reads and writes, and the
    invariants that the controllers are meant to keep: every stored document
    passed its schema, replies point back at their parent one level deeper,
    each (user, item) pair has at most one vote, and the cached counters
    `commentCount` and `upvotes` of a roadmap item agree with the comments
    and votes stored for it. */
module Database {
  import opened Common
  import opened Collections
  import opened RoadmapItemModel
  import opened CommentModel
  import opened UpvoteModel

  datatype Db = Db(items: Collection<RoadmapItem>, comments: Collection<Comment>, votes: Collection<Upvote>) {

    /** Each collection lists its documents once in natural order. */
    ghost predicate WellFormed() {
      items.Valid() && comments.Valid() && votes.Valid()
    }

    ghost predicate Valid() {
      && WellFormed()
      && ItemsValid(items.docs)
      && CommentsValid(comments.docs, items.docs.Keys)
      && VotesValid(votes.docs, items.docs.Keys)
    }

    /** `commentCount` of every item is the number of its live comments. */
    ghost predicate CommentCountsInSync() {
      forall id :: id in items.docs ==> items.docs[id].commentCount == |LiveComments(comments.docs, id)|
    }

    /** `upvotes` of every item is the number of votes stored for it. */
    ghost predicate UpvotesInSync() {
      forall id :: id in items.docs ==> items.docs[id].upvotes == |VotesFor(votes.docs, id)|
    }
  }

  /** The database after a request, and what the client is sent. */
  datatype Response<T> = Response(db: Db, out: Outcome<T>)

  ghost predicate ItemsValid(docs: map<Id, RoadmapItem>) {
    forall id :: id in docs ==> ValidItem(docs[id])
  }

  /** Every stored comment passed its schema, belongs to a stored item, and
      the replies are threaded. */
  ghost predicate CommentsValid(docs: map<Id, Comment>, items: set<Id>) {
    && (forall id :: id in docs ==> ValidComment(docs[id]) && docs[id].roadmapItem in items)
    && Threaded(docs)
  }

  /** The unique index holds and every vote belongs to a stored item. */
  ghost predicate VotesValid(docs: map<Id, Upvote>, items: set<Id>) {
    && UniquePairs(docs)
    && (forall id :: id in docs ==> docs[id].roadmapItem in items)
  }

  /** The reply structure: a top-level comment has depth 0, a reply is one
      level deeper than its parent, and a comment's `replies` name stored
      comments that have it as parent, each once. */
  ghost predicate Threaded(docs: map<Id, Comment>) {
    forall id {:trigger ThreadedAt(docs, id)} :: id in docs ==> ThreadedAt(docs, id)
  }

  ghost predicate ThreadedAt(docs: map<Id, Comment>, id: Id) {
    && id in docs
    && 0 <= docs[id].depth
    && NoDuplicates(docs[id].replies)
    && (docs[id].parentComment.None? ==> docs[id].depth == 0)
    && (docs[id].parentComment.Some? ==>
          docs[id].parentComment.value in docs
          && docs[id].depth == docs[docs[id].parentComment.value].depth + 1)
    && (forall r :: r in docs[id].replies ==> ChildOf(docs, r, id))
  }

  /** `r` is a stored reply of the stored comment `id`, one level deeper. */
  ghost predicate ChildOf(docs: map<Id, Comment>, r: Id, id: Id) {
    r in docs && id in docs && docs[r].parentComment == Some(id) && docs[r].depth == docs[id].depth + 1
  }

  /** `d` keeps every comment of `docs`, at the same depth, under the same
      parent. */
  ghost predicate SameTree(docs: map<Id, Comment>, d: map<Id, Comment>) {
    forall x :: x in docs ==> x in d && d[x].depth == docs[x].depth && d[x].parentComment == docs[x].parentComment
  }

  lemma ThreadedAtTransfers(docs: map<Id, Comment>, d: map<Id, Comment>, id: Id)
    requires SameTree(docs, d) && ThreadedAt(docs, id)
    requires d[id].replies == docs[id].replies
    ensures ThreadedAt(d, id)
  {
    forall r | r in d[id].replies ensures ChildOf(d, r, id) {
      assert ChildOf(docs, r, id);
    }
  }

  /** A comment at the deepest level has no replies in a valid database. */
  lemma DeepestHasNoReplies(docs: map<Id, Comment>, id: Id)
    requires Threaded(docs) && (forall x :: x in docs ==> ValidComment(docs[x]))
    requires id in docs && docs[id].depth == MaxDepth
    ensures docs[id].replies == []
  {
    assert ThreadedAt(docs, id);
    HeadIsMember(docs[id].replies);
  }

  lemma HeadIsMember<T>(s: seq<T>)
    ensures s != [] ==> s[0] in s
  {
  }

  /** A new top-level comment with no replies keeps the comments valid. */
  lemma AddTopKeepsCommentsValid(docs: map<Id, Comment>, items: set<Id>, newId: Id, c: Comment)
    requires CommentsValid(docs, items) && newId !in docs
    requires ValidComment(c) && c.roadmapItem in items
    requires c.parentComment.None? && c.depth == 0 && c.replies == []
    ensures CommentsValid(docs[newId := c], items)
  {
    var d := docs[newId := c];
    assert SameTree(docs, d);
    forall id | id in d ensures ThreadedAt(d, id) {
      if id != newId {
        ThreadedAtTransfers(docs, d, id);
      }
    }
  }

  /** A new reply one level below a stored parent, appended to the parent's
      `replies`, keeps the comments valid. */
  lemma AddReplyKeepsCommentsValid(docs: map<Id, Comment>, items: set<Id>, newId: Id, c: Comment, pid: Id, now: int)
    requires CommentsValid(docs, items) && newId !in docs && pid in docs
    requires ValidComment(c) && c.roadmapItem in items
    requires c.parentComment == Some(pid) && c.depth == docs[pid].depth + 1 && c.replies == []
    ensures CommentsValid(docs[newId := c][pid := Linked(docs[pid], newId, now)], items)
  {
    var p := Linked(docs[pid], newId, now);
    var d := docs[newId := c][pid := p];
    assert ValidComment(docs[pid]);
    assert SameTree(docs, d);
    forall id | id in d ensures ThreadedAt(d, id) {
      if id == pid {
        assert ThreadedAt(docs, pid);
        forall r | r in p.replies ensures ChildOf(d, r, pid) {
          if r != newId {
            assert ChildOf(docs, r, pid);
          }
        }
        assert newId !in docs[pid].replies;
        NoDuplicatesAppend(docs[pid].replies, newId);
      } else if id != newId {
        ThreadedAtTransfers(docs, d, id);
      }
    }
  }

  /** Replacing a stored comment by a valid one with the same item, parent,
      depth and replies keeps the comments valid. */
  lemma SameShapeKeepsCommentsValid(docs: map<Id, Comment>, items: set<Id>, id: Id, c: Comment)
    requires CommentsValid(docs, items) && id in docs
    requires ValidComment(c) && c.roadmapItem == docs[id].roadmapItem
    requires c.parentComment == docs[id].parentComment && c.depth == docs[id].depth && c.replies == docs[id].replies
    ensures CommentsValid(docs[id := c], items)
  {
    var d := docs[id := c];
    assert SameTree(docs, d);
    forall x | x in d ensures ThreadedAt(d, x) {
      ThreadedAtTransfers(docs, d, x);
    }
  }
}
