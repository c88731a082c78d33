/** frontend/src/pages/RoadmapApp/components/RoadmapDetails.jsx: the page of
    one roadmap item. It loads the item and its comments together, flips
    the heart optimistically before the toggle request, guards its comment
    requests, and shows a comment count. */
module RoadmapDetails {
  import opened Common
  import opened RoadmapItemModel
  import opened CommentModel
  import opened UpvoteModel
  import Database
  import RoadmapItemController
  import CommentController
  import UpvoteController

  /** The page's `item`: `{ ...item, comments }` from the two reads, plus the
      `userUpvoted` field that only the page itself ever sets (`None` is
      `undefined`). */
  datatype Detail = Detail(id: Id, item: RoadmapItem, upvoteCount: nat, comments: seq<Node>,
                           userUpvoted: Option<bool>)

  /** `fetchRoadmapItem` on success. */
  function Loaded(v: RoadmapItemController.ItemView, comments: seq<Node>): (d: Detail)
    ensures d.item == v.item && d.comments == comments && d.userUpvoted.None?
  {
    Detail(v.id, v.item, v.upvoteCount, comments, None)
  }

  /** JavaScript truthiness of `prev.userUpvoted`. */
  predicate Upvoted(d: Detail) {
    d.userUpvoted == Some(true)
  }

  /** The optimistic `setItem` updater of `handleUpvote`: the cached
      `upvotes` one down when the page believes the user had voted, one up
      otherwise, and the belief negated. */
  function Flip(d: Detail): (r: Detail)
    ensures r.item.upvotes == d.item.upvotes + (if Upvoted(d) then -1 else 1)
    ensures Upvoted(r) <==> !Upvoted(d)
    ensures r.userUpvoted.Some?
    ensures r.item == d.item.(upvotes := r.item.upvotes)
    ensures r.(item := d.item, userUpvoted := d.userUpvoted) == d
  {
    d.(item := d.item.(upvotes := if Upvoted(d) then d.item.upvotes - 1 else d.item.upvotes + 1),
       userUpvoted := Some(!Upvoted(d)))
  }

  /** Flipping twice restores the page once it holds a belief; from
      `undefined` it restores everything but `userUpvoted`, which becomes
      `false`. */
  lemma FlipInvolution(d: Detail)
    ensures Flip(Flip(d)) == d.(userUpvoted := Some(Upvoted(d)))
    ensures d.userUpvoted.Some? ==> Flip(Flip(d)) == d
  {
    if d.userUpvoted.Some? {
      if d.userUpvoted.value {
        assert Upvoted(d);
      } else {
        assert !Upvoted(d);
      }
    }
  }

  /** A signed-in user: `userData?._id` truthy. */
  predicate SignedIn(user: Option<Id>) {
    user.Some? && user.value != ""
  }

  /** `handleUpvote`: signed out nothing changes and nothing is sent;
      otherwise the page flips and the toggle request goes out. */
  function HandleUpvote(user: Option<Id>, d: Detail): (r: (Detail, bool))
    ensures !SignedIn(user) ==> r == (d, false)
    ensures SignedIn(user) ==> r == (Flip(d), true)
  {
    if !SignedIn(user) then (d, false) else (Flip(d), true)
  }

  /** The body of `POST /comments/:itemId` that `addComment(content,
      parentId)` sends, if any: none signed out, none for blank content. */
  function AddCommentRequest(user: Option<Id>, content: string, parentId: Option<Id>)
    : (r: Option<(string, Option<Id>)>)
    ensures r.Some? <==> SignedIn(user) && !AllWhitespace(content)
    ensures r.Some? ==> r.value == (content, parentId)
  {
    if !SignedIn(user) then None
    else
      TrimEmptyIffBlank(content);
      if Trim(content) == [] then None else Some((content, parentId))
  }

  /** The body of `PUT /comments/:id` that `editComment` sends, if any. */
  function EditCommentRequest(newContent: string): (r: Option<string>)
    ensures r.Some? <==> !AllWhitespace(newContent)
    ensures r.Some? ==> r.value == newContent
  {
    TrimEmptyIffBlank(newContent);
    if Trim(newContent) == [] then None else Some(newContent)
  }

  /** `item.commentCount || item.comments?.length || 0`. */
  function DisplayedCount(d: Detail): (n: int)
    ensures d.item.commentCount != 0 ==> n == d.item.commentCount
    ensures d.item.commentCount == 0 ==> n == |d.comments|
  {
    if d.item.commentCount != 0 then d.item.commentCount
    else if |d.comments| != 0 then |d.comments|
    else 0
  }

  /** In a database whose counters are in sync, the page shows the number
      of live comments of the item, replies included: when that number is
      0 the listing is empty too, so the fallback never shows anything
      else. */
  lemma DisplayedCountIsLiveCount(db: Database.Db, isObjectId: Id -> bool, itemId: Id)
    requires db.comments.Valid() && db.CommentCountsInSync()
    requires isObjectId(itemId) && itemId in db.items.docs
    ensures var d := Loaded(RoadmapItemController.GetRoadmapItem(db, isObjectId, itemId).value,
                            CommentController.GetComments(db, isObjectId, itemId).value);
      DisplayedCount(d) == |LiveComments(db.comments.docs, itemId)|
  {
    var docs := db.comments.docs;
    var nodes := CommentController.GetComments(db, isObjectId, itemId).value;
    CommentController.GetCommentsTopLevel(db, isObjectId, itemId);
    var ids := CommentController.Ids(nodes);
    forall x | x in ids ensures x in LiveComments(docs, itemId) {
      assert CommentController.IsTopLevel(docs, x, itemId);
    }
    NoDuplicatesWithin(ids, LiveComments(docs, itemId));
  }

  /** The page as it loads: `userUpvoted` is never filled in, so the first
      flip always counts up, even for a user whose vote the server is about
      to remove. */
  lemma FirstFlipDisagrees(db: Database.Db, isObjectId: Id -> bool, itemId: Id, userId: Id,
                           comments: seq<Node>, newId: Id, now: int)
    requires db.WellFormed() && newId !in db.votes.docs && UniquePairs(db.votes.docs)
    requires isObjectId(itemId) && isObjectId(userId) && itemId in db.items.docs
    requires (userId, itemId) in Pairs(db.votes.docs)
    ensures var d := Loaded(RoadmapItemController.GetRoadmapItem(db, isObjectId, itemId).value, comments);
      var r := UpvoteController.UpvoteItem(db, isObjectId, itemId, userId, newId, now);
      && Flip(d).item.upvotes == db.items.docs[itemId].upvotes + 1
      && r.out == Ok(false)
      && r.db.items.docs[itemId].upvotes == db.items.docs[itemId].upvotes - 1
  {
    UpvoteController.UpvoteItemToggles(db, isObjectId, itemId, userId, newId, now);
  }

  /** The page loaded with the user's vote: `userUpvoted` is whether the
      signed-in user has a vote for the item. */
  function LoadedForUser(db: Database.Db, v: RoadmapItemController.ItemView, comments: seq<Node>, userId: Id)
    : (d: Detail)
    ensures d.item == v.item && d.comments == comments
    ensures d.userUpvoted == Some((userId, v.id) in Pairs(db.votes.docs))
  {
    Loaded(v, comments).(userUpvoted := Some((userId, v.id) in Pairs(db.votes.docs)))
  }

  /** Loaded with the user's vote, the optimistic flip shows exactly what
      the toggle then stores and answers. */
  lemma FlipMatchesServer(db: Database.Db, isObjectId: Id -> bool, itemId: Id, userId: Id,
                          comments: seq<Node>, newId: Id, now: int)
    requires db.WellFormed() && newId !in db.votes.docs && UniquePairs(db.votes.docs)
    requires isObjectId(itemId) && itemId in db.items.docs
    ensures var d := LoadedForUser(db, RoadmapItemController.GetRoadmapItem(db, isObjectId, itemId).value,
                                   comments, userId);
      var r := UpvoteController.UpvoteItem(db, isObjectId, itemId, userId, newId, now);
      r.out.Ok? ==>
        && Flip(d).item == r.db.items.docs[itemId]
        && Flip(d).userUpvoted == Some(r.out.value)
  {
    UpvoteController.UpvoteItemToggles(db, isObjectId, itemId, userId, newId, now);
  }
}
