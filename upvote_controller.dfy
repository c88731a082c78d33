/** backend/Controllers/UpvoteController.js: the upvote toggle of a signed-in
    user and the two read routes. The caller's id comes from the
    authentication middleware; `mongoose.Types.ObjectId.isValid` is the
    abstract `isObjectId`. */
module UpvoteController {
  import opened Common
  import opened Collections
  import opened RoadmapItemModel
  import opened UpvoteModel
  import opened Database

  const InvalidItemId: string := "Invalid roadmap item ID"
  const InvalidUserId: string := "Invalid user ID"
  const ItemNotFound: string := "Roadmap item not found"
  const UserIdRequired: string := "User ID is required"
  const InvalidUserIdFormat: string := "Invalid user ID format"

  /** `findOne({ user, roadmapItem })`: the first vote of the pair in natural
      order, if the pair has one. */
  function FindVote(votes: Collection<Upvote>, user: Id, item: Id): (r: Option<Id>)
    requires votes.Valid()
    ensures r.Some? ==> r.value in votes.docs && votes.docs[r.value].user == user && votes.docs[r.value].roadmapItem == item
    ensures r.None? <==> (user, item) !in Pairs(votes.docs)
  {
    var found := votes.Select((id, v: Upvote) => v.user == user && v.roadmapItem == item);
    if found == [] then
      None
    else
      assert found[0] in found;
      Some(found[0])
  }

  /** `findByIdAndUpdate(id, { $inc: { upvotes: delta } })` on a stored item:
      no validator and no pre-save hook runs, so only `upvotes` changes. */
  function IncUpvotes(items: Collection<RoadmapItem>, id: Id, delta: int): (r: Collection<RoadmapItem>)
    requires items.Valid() && id in items.docs
    ensures r.Valid() && r.order == items.order
    ensures r.docs == items.docs[id := items.docs[id].(upvotes := items.docs[id].upvotes + delta)]
  {
    items.Update(id, items.docs[id].(upvotes := items.docs[id].upvotes + delta))
  }

  /** `POST /upvotes/:roadmapItemId`: `Ok(upvoted)` tells whether the call
      added a vote (true) or removed one (false). `newId` is the fresh
      ObjectId a new vote would get. */
  function UpvoteItem(db: Db, isObjectId: Id -> bool, itemId: Id, userId: Id, newId: Id, now: int)
    : (r: Response<bool>)
    requires db.WellFormed() && newId !in db.votes.docs
    ensures r.db.WellFormed() && r.db.comments == db.comments
    ensures !r.out.Ok? ==> r.db == db
  {
    if !isObjectId(itemId) then Response(db, BadRequest(InvalidItemId))
    else if !isObjectId(userId) then Response(db, BadRequest(InvalidUserId))
    else if itemId !in db.items.docs then Response(db, NotFound(ItemNotFound))
    else
      match FindVote(db.votes, userId, itemId)
      case Some(vid) =>
        Response(db.(votes := db.votes.Delete(vid), items := IncUpvotes(db.items, itemId, -1)), Ok(false))
      case None =>
        Response(db.(votes := db.votes.Insert(newId, NewUpvote(userId, itemId, now)),
                     items := IncUpvotes(db.items, itemId, 1)), Ok(true))
  }

  /** The toggle for a caller without a vote for the item: the vote is
      inserted and `upvotes` goes one up. */
  lemma UpvoteAddPath(db: Db, isObjectId: Id -> bool, itemId: Id, userId: Id, newId: Id, now: int)
    requires db.WellFormed() && newId !in db.votes.docs
    requires isObjectId(itemId) && isObjectId(userId) && itemId in db.items.docs
    requires FindVote(db.votes, userId, itemId).None?
    ensures UpvoteItem(db, isObjectId, itemId, userId, newId, now)
         == Response(db.(votes := db.votes.Insert(newId, NewUpvote(userId, itemId, now)),
                         items := IncUpvotes(db.items, itemId, 1)), Ok(true))
  {
  }

  /** The toggle for a caller whose vote `vid` is stored: the vote is
      deleted and `upvotes` goes one down. */
  lemma UpvoteRemovePath(db: Db, isObjectId: Id -> bool, itemId: Id, userId: Id, newId: Id, now: int, vid: Id)
    requires db.WellFormed() && newId !in db.votes.docs
    requires isObjectId(itemId) && isObjectId(userId) && itemId in db.items.docs
    requires FindVote(db.votes, userId, itemId) == Some(vid)
    ensures UpvoteItem(db, isObjectId, itemId, userId, newId, now)
         == Response(db.(votes := db.votes.Delete(vid), items := IncUpvotes(db.items, itemId, -1)), Ok(false))
  {
  }

  /** A toggle that succeeds took one of the two paths. */
  lemma UpvoteSucceeded(db: Db, isObjectId: Id -> bool, itemId: Id, userId: Id, newId: Id, now: int)
    requires db.WellFormed() && newId !in db.votes.docs
    requires UpvoteItem(db, isObjectId, itemId, userId, newId, now).out.Ok?
    ensures isObjectId(itemId) && isObjectId(userId) && itemId in db.items.docs
    ensures UpvoteItem(db, isObjectId, itemId, userId, newId, now).out.value
        <==> FindVote(db.votes, userId, itemId).None?
  {
  }

  /** The toggle answers 400 for a malformed item id, then 400 for a
      malformed user id, then 404 for an unknown item, each without a write;
      it succeeds in every other case. */
  lemma UpvoteItemRejects(db: Db, isObjectId: Id -> bool, itemId: Id, userId: Id, newId: Id, now: int)
    requires db.WellFormed() && newId !in db.votes.docs
    ensures var r := UpvoteItem(db, isObjectId, itemId, userId, newId, now);
      && (!isObjectId(itemId) ==> r == Response(db, BadRequest(InvalidItemId)))
      && (isObjectId(itemId) && !isObjectId(userId) ==> r == Response(db, BadRequest(InvalidUserId)))
      && (isObjectId(itemId) && isObjectId(userId) && itemId !in db.items.docs ==> r == Response(db, NotFound(ItemNotFound)))
      && (r.out.Ok? <==> isObjectId(itemId) && isObjectId(userId) && itemId in db.items.docs)
  {
  }

  /** A successful toggle removes the caller's vote for the item when there
      is one (answering `upvoted: false`, `upvotes` one less) and adds one
      otherwise (answering `upvoted: true`, `upvotes` one more). No other
      field of the item, no other item and no vote of another pair changes. */
  lemma UpvoteItemToggles(db: Db, isObjectId: Id -> bool, itemId: Id, userId: Id, newId: Id, now: int)
    requires db.WellFormed() && newId !in db.votes.docs && UniquePairs(db.votes.docs)
    ensures var r := UpvoteItem(db, isObjectId, itemId, userId, newId, now);
      var p := (userId, itemId);
      r.out.Ok? ==>
        && r.out.value == (p !in Pairs(db.votes.docs))
        && Pairs(r.db.votes.docs) == (if r.out.value then Pairs(db.votes.docs) + {p} else Pairs(db.votes.docs) - {p})
        && r.db.items.order == db.items.order
        && r.db.items.docs == db.items.docs[itemId :=
             db.items.docs[itemId].(upvotes := db.items.docs[itemId].upvotes + (if r.out.value then 1 else -1))]
        && (forall id :: id in db.votes.docs && db.votes.docs[id].user != userId ==>
              id in r.db.votes.docs && r.db.votes.docs[id] == db.votes.docs[id])
        && (forall id :: id in db.votes.docs && db.votes.docs[id].roadmapItem != itemId ==>
              id in r.db.votes.docs && r.db.votes.docs[id] == db.votes.docs[id])
  {
    var r := UpvoteItem(db, isObjectId, itemId, userId, newId, now);
    if r.out.Ok? {
      var docs := db.votes.docs;
      match FindVote(db.votes, userId, itemId)
      case Some(vid) =>
        RemoveVotePairs(docs, vid);
      case None =>
        InsertVotePairs(docs, newId, NewUpvote(userId, itemId, now));
    }
  }

  /** Toggling twice for the same pair gives back the items as they were and
      the same set of voting pairs; when the first call added the vote, the
      database is restored exactly. */
  lemma UpvoteTwiceRestores(db: Db, isObjectId: Id -> bool, itemId: Id, userId: Id,
                            newId: Id, now: int, newId2: Id, later: int)
    requires db.WellFormed() && UniquePairs(db.votes.docs)
    requires newId !in db.votes.docs && newId2 !in db.votes.docs && newId2 != newId
    ensures var r1 := UpvoteItem(db, isObjectId, itemId, userId, newId, now);
      var r2 := UpvoteItem(r1.db, isObjectId, itemId, userId, newId2, later);
      r1.out.Ok? ==>
        && r2.out.Ok? && r2.out.value == !r1.out.value
        && r2.db.items == db.items
        && Pairs(r2.db.votes.docs) == Pairs(db.votes.docs)
        && (r1.out.value ==> r2.db == db)
  {
    var r1 := UpvoteItem(db, isObjectId, itemId, userId, newId, now);
    if r1.out.Ok? {
      UpvoteItemToggles(db, isObjectId, itemId, userId, newId, now);
      if r1.out.value {
        AddedThenRemoved(db, isObjectId, itemId, userId, newId, now, newId2, later);
      } else {
        RemovedThenAdded(db, isObjectId, itemId, userId, newId, now, newId2, later);
      }
    }
  }

  lemma AddedThenRemoved(db: Db, isObjectId: Id -> bool, itemId: Id, userId: Id,
                         newId: Id, now: int, newId2: Id, later: int)
    requires db.WellFormed() && UniquePairs(db.votes.docs)
    requires newId !in db.votes.docs && newId2 !in db.votes.docs && newId2 != newId
    requires var r1 := UpvoteItem(db, isObjectId, itemId, userId, newId, now); r1.out == Ok(true)
    ensures var r1 := UpvoteItem(db, isObjectId, itemId, userId, newId, now);
      UpvoteItem(r1.db, isObjectId, itemId, userId, newId2, later) == Response(db, Ok(false))
  {
    UpvoteSucceeded(db, isObjectId, itemId, userId, newId, now);
    UpvoteAddPath(db, isObjectId, itemId, userId, newId, now);
    var v := NewUpvote(userId, itemId, now);
    var db1 := db.(votes := db.votes.Insert(newId, v), items := IncUpvotes(db.items, itemId, 1));
    FindInserted(db.votes, newId, v);
    UpvoteRemovePath(db1, isObjectId, itemId, userId, newId2, later, newId);
    InsertThenDelete(db.votes, newId, v);
    IncThenDec(db.items, itemId);
  }

  /** Under the unique index a vote just inserted is the one found for its
      pair. */
  lemma FindInserted(votes: Collection<Upvote>, id: Id, v: Upvote)
    requires votes.Valid() && id !in votes.docs && UniquePairs(votes.docs)
    requires (v.user, v.roadmapItem) !in Pairs(votes.docs)
    ensures FindVote(votes.Insert(id, v), v.user, v.roadmapItem) == Some(id)
  {
    InsertKeepsUnique(votes.docs, id, v);
    var c := votes.Insert(id, v);
    assert c.docs[id] == v;
  }

  /** `upvotes` one up and then one down is the item as it was. */
  lemma IncThenDec(items: Collection<RoadmapItem>, id: Id)
    requires items.Valid() && id in items.docs
    ensures IncUpvotes(IncUpvotes(items, id, 1), id, -1) == items
  {
    assert IncUpvotes(IncUpvotes(items, id, 1), id, -1).docs == items.docs;
  }

  lemma RemovedThenAdded(db: Db, isObjectId: Id -> bool, itemId: Id, userId: Id,
                         newId: Id, now: int, newId2: Id, later: int)
    requires db.WellFormed() && UniquePairs(db.votes.docs)
    requires newId !in db.votes.docs && newId2 !in db.votes.docs && newId2 != newId
    requires var r1 := UpvoteItem(db, isObjectId, itemId, userId, newId, now); r1.out == Ok(false)
    ensures var r1 := UpvoteItem(db, isObjectId, itemId, userId, newId, now);
      var r2 := UpvoteItem(r1.db, isObjectId, itemId, userId, newId2, later);
      && r2.out == Ok(true)
      && r2.db.items == db.items
      && Pairs(r2.db.votes.docs) == Pairs(db.votes.docs)
  {
    var r1 := UpvoteItem(db, isObjectId, itemId, userId, newId, now);
    UpvoteItemToggles(db, isObjectId, itemId, userId, newId, now);
    assert UniquePairs(r1.db.votes.docs);
    UpvoteItemToggles(r1.db, isObjectId, itemId, userId, newId2, later);
    assert r1.db.items.docs[itemId].upvotes == db.items.docs[itemId].upvotes - 1;
    var r2 := UpvoteItem(r1.db, isObjectId, itemId, userId, newId2, later);
    assert r2.db.items.docs == db.items.docs;
  }

  /** A toggle keeps the database valid: the unique index holds, every vote
      names a stored item, and `upvotes` has no validator to break. */
  lemma UpvoteItemKeepsValid(db: Db, isObjectId: Id -> bool, itemId: Id, userId: Id, newId: Id, now: int)
    requires db.Valid() && newId !in db.votes.docs
    ensures UpvoteItem(db, isObjectId, itemId, userId, newId, now).db.Valid()
  {
    var r := UpvoteItem(db, isObjectId, itemId, userId, newId, now);
    if r.out.Ok? {
      UpvoteSucceeded(db, isObjectId, itemId, userId, newId, now);
      var keys := db.items.docs.Keys;
      match FindVote(db.votes, userId, itemId)
      case Some(vid) =>
        UpvoteRemovePath(db, isObjectId, itemId, userId, newId, now, vid);
        var votes := db.votes.Delete(vid);
        assert VotesValid(votes.docs, keys);
        VotesMovedKeepsValid(db, votes, itemId, -1);
      case None =>
        var v := NewUpvote(userId, itemId, now);
        UpvoteAddPath(db, isObjectId, itemId, userId, newId, now);
        var votes := db.votes.Insert(newId, v);
        InsertKeepsUnique(db.votes.docs, newId, v);
        VotesMovedKeepsValid(db, votes, itemId, 1);
    }
  }

  /** New votes that name stored items, with `upvotes` of one item moved,
      keep the database valid. */
  lemma VotesMovedKeepsValid(db: Db, votes: Collection<Upvote>, itemId: Id, delta: int)
    requires db.Valid() && itemId in db.items.docs && votes.Valid()
    requires VotesValid(votes.docs, db.items.docs.Keys)
    ensures db.(votes := votes, items := IncUpvotes(db.items, itemId, delta)).Valid()
  {
    var items := IncUpvotes(db.items, itemId, delta);
    assert items.docs.Keys == db.items.docs.Keys;
    forall x | x in items.docs ensures ValidItem(items.docs[x]) {
      assert ValidItem(db.items.docs[x]);
    }
  }

  /** A toggle keeps `upvotes` of every item equal to its number of votes
      when it was before, and leaves every `commentCount` as it was. */
  lemma UpvoteItemKeepsCounts(db: Db, isObjectId: Id -> bool, itemId: Id, userId: Id, newId: Id, now: int)
    requires db.WellFormed() && newId !in db.votes.docs
    ensures var r := UpvoteItem(db, isObjectId, itemId, userId, newId, now);
      && (db.UpvotesInSync() ==> r.db.UpvotesInSync())
      && (db.CommentCountsInSync() ==> r.db.CommentCountsInSync())
  {
    var r := UpvoteItem(db, isObjectId, itemId, userId, newId, now);
    if r.out.Ok? {
      UpvoteSucceeded(db, isObjectId, itemId, userId, newId, now);
      match FindVote(db.votes, userId, itemId)
      case Some(vid) =>
        UpvoteRemovePath(db, isObjectId, itemId, userId, newId, now, vid);
        RemovedKeepsCounts(db, itemId, vid);
      case None =>
        UpvoteAddPath(db, isObjectId, itemId, userId, newId, now);
        InsertedKeepsCounts(db, itemId, newId, NewUpvote(userId, itemId, now));
    }
  }

  /** Deleting a vote for `itemId` with `upvotes` one down keeps the
      counters in sync. */
  lemma RemovedKeepsCounts(db: Db, itemId: Id, vid: Id)
    requires db.WellFormed() && itemId in db.items.docs
    requires vid in db.votes.docs && db.votes.docs[vid].roadmapItem == itemId
    ensures var r := db.(votes := db.votes.Delete(vid), items := IncUpvotes(db.items, itemId, -1));
      && (db.UpvotesInSync() ==> r.UpvotesInSync())
      && (db.CommentCountsInSync() ==> r.CommentCountsInSync())
  {
    var docs := db.votes.docs;
    RemoveVoteCount(docs, vid);
    ItemCountersMoved(db.items, IncUpvotes(db.items, itemId, -1), docs, docs - {vid}, itemId, -1);
  }

  /** Inserting a vote for `itemId` with `upvotes` one up keeps the
      counters in sync. */
  lemma InsertedKeepsCounts(db: Db, itemId: Id, newId: Id, v: Upvote)
    requires db.WellFormed() && itemId in db.items.docs
    requires newId !in db.votes.docs && v.roadmapItem == itemId
    ensures var r := db.(votes := db.votes.Insert(newId, v), items := IncUpvotes(db.items, itemId, 1));
      && (db.UpvotesInSync() ==> r.UpvotesInSync())
      && (db.CommentCountsInSync() ==> r.CommentCountsInSync())
  {
    var docs := db.votes.docs;
    InsertVoteCount(docs, newId, v);
    ItemCountersMoved(db.items, IncUpvotes(db.items, itemId, 1), docs, docs[newId := v], itemId, 1);
  }

  /** A successful toggle moves the live count of the item by one, up when
      it answers `upvoted: true` and down otherwise, and no other item's. */
  lemma UpvoteItemMovesLiveCount(db: Db, isObjectId: Id -> bool, itemId: Id, userId: Id, newId: Id, now: int)
    requires db.WellFormed() && newId !in db.votes.docs
    ensures var r := UpvoteItem(db, isObjectId, itemId, userId, newId, now);
      r.out.Ok? ==>
        && |VotesFor(r.db.votes.docs, itemId)| == |VotesFor(db.votes.docs, itemId)| + (if r.out.value then 1 else -1)
        && (forall x :: x != itemId ==> VotesFor(r.db.votes.docs, x) == VotesFor(db.votes.docs, x))
  {
    var r := UpvoteItem(db, isObjectId, itemId, userId, newId, now);
    if r.out.Ok? {
      var docs := db.votes.docs;
      match FindVote(db.votes, userId, itemId)
      case Some(vid) =>
        assert r.db.votes.docs == docs - {vid} && docs[vid].roadmapItem == itemId;
        RemoveVoteCount(docs, vid);
      case None =>
        var v := NewUpvote(userId, itemId, now);
        assert r.db.votes.docs == docs[newId := v];
        InsertVoteCount(docs, newId, v);
    }
  }

  /** The items after `$inc: { upvotes: delta }` on `itemId`, while the
      votes for that item changed by `delta` and no other item's did: every
      counter in sync stays in sync, and `commentCount` is untouched. */
  lemma ItemCountersMoved(items: Collection<RoadmapItem>, items': Collection<RoadmapItem>,
                          docs: map<Id, Upvote>, d: map<Id, Upvote>, itemId: Id, delta: int)
    requires itemId in items.docs
    requires items'.docs == items.docs[itemId := items.docs[itemId].(upvotes := items.docs[itemId].upvotes + delta)]
    requires |VotesFor(d, itemId)| == |VotesFor(docs, itemId)| + delta
    requires forall x :: x != itemId ==> VotesFor(d, x) == VotesFor(docs, x)
    ensures (forall x :: x in items.docs ==> items.docs[x].upvotes == |VotesFor(docs, x)|) ==>
            (forall x :: x in items'.docs ==> items'.docs[x].upvotes == |VotesFor(d, x)|)
    ensures forall x :: x in items'.docs <==> x in items.docs
    ensures forall x :: x in items'.docs ==> items'.docs[x].commentCount == items.docs[x].commentCount
  {
  }

  /** `GET /upvotes/user/:userId`: the ids of the user's votes, in natural
      order. A missing id, or the strings "undefined" and "null" that an
      unset client variable turns into, are refused before the format
      check. */
  function GetUserUpvotes(db: Db, isObjectId: Id -> bool, userId: string): (r: Outcome<seq<Id>>)
    requires db.votes.Valid()
    ensures (userId == "" || userId == "undefined" || userId == "null") ==> r == BadRequest(UserIdRequired)
    ensures !(userId == "" || userId == "undefined" || userId == "null") && !isObjectId(userId) ==>
      r == BadRequest(InvalidUserIdFormat)
    ensures r.Ok? <==> userId != "" && userId != "undefined" && userId != "null" && isObjectId(userId)
    ensures r.Ok? ==> NoDuplicates(r.value)
    ensures r.Ok? ==> forall id :: id in r.value <==> id in db.votes.docs && db.votes.docs[id].user == userId
  {
    if userId == "" || userId == "undefined" || userId == "null" then BadRequest(UserIdRequired)
    else if !isObjectId(userId) then BadRequest(InvalidUserIdFormat)
    else Ok(db.votes.Select((id, v: Upvote) => v.user == userId))
  }

  /** Under the unique index a user's votes name each item at most once. */
  lemma UserUpvotesDistinctItems(db: Db, isObjectId: Id -> bool, userId: string)
    requires db.votes.Valid() && UniquePairs(db.votes.docs)
    ensures var r := GetUserUpvotes(db, isObjectId, userId);
      r.Ok? ==> forall a, b :: a in r.value && b in r.value && a != b ==>
        db.votes.docs[a].roadmapItem != db.votes.docs[b].roadmapItem
  {
  }

  /** `GET /upvotes/count/:roadmapItemId`: the number of votes stored for the
      id, whether or not an item has it. */
  function GetUpvoteCount(db: Db, isObjectId: Id -> bool, itemId: Id): (r: Outcome<nat>)
    ensures r.Ok? <==> isObjectId(itemId)
    ensures !r.Ok? ==> r == BadRequest(InvalidItemId)
  {
    if !isObjectId(itemId) then BadRequest(InvalidItemId)
    else Ok(|VotesFor(db.votes.docs, itemId)|)
  }

  /** In a database whose counters are in sync, the live count of a stored
      item is its cached `upvotes`; an id that names no item counts 0 in a
      valid database. */
  lemma UpvoteCountMatchesCache(db: Db, isObjectId: Id -> bool, itemId: Id)
    requires db.Valid() && db.UpvotesInSync() && isObjectId(itemId)
    ensures var r := GetUpvoteCount(db, isObjectId, itemId);
      && r.Ok?
      && (itemId in db.items.docs ==> r.value == db.items.docs[itemId].upvotes)
      && (itemId !in db.items.docs ==> r.value == 0)
  {
    if itemId !in db.items.docs {
      assert VotesFor(db.votes.docs, itemId) == {};
    }
  }
}
