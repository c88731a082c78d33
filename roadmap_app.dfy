/** frontend/src/pages/RoadmapApp/RoadmapApp.jsx: the roadmap board. It lists
    the items with their live vote counts, keeps the signed-in user's
    upvotes, and after each toggle the server answers it adjusts both
    copies in place before refetching. */
module RoadmapApp {
  import opened Common
  import opened RoadmapItemModel
  import opened UpvoteModel
  import Database
  import RoadmapItemController
  import UpvoteController

  // ---------------------------------------------------- fetchRoadmapData

  /** A `URLSearchParams`: its name/value pairs in order. */
  type QueryParams = seq<(string, string)>

  /** The query `fetchRoadmapData` appends: `status` and `category` only
      when a filter other than "all" is chosen, `sort` always, last. */
  method BuildQueryParams(statusFilter: string, categoryFilter: string, sortBy: string)
    returns (params: QueryParams)
    ensures ("status", statusFilter) in params <==> statusFilter != "all"
    ensures ("category", categoryFilter) in params <==> categoryFilter != "all"
    ensures |params| == 1 + (if statusFilter != "all" then 1 else 0) + (if categoryFilter != "all" then 1 else 0)
    ensures params[|params| - 1] == ("sort", sortBy)
    ensures forall k :: 0 <= k < |params| - 1 ==> params[k].0 != "sort"
    ensures statusFilter != "all" ==> params[0] == ("status", statusFilter)
    ensures categoryFilter != "all" ==> params[|params| - 2] == ("category", categoryFilter)
  {
    params := [];
    if statusFilter != "all" {
      params := params + [("status", statusFilter)];
    }
    if categoryFilter != "all" {
      params := params + [("category", categoryFilter)];
    }
    params := params + [("sort", sortBy)];
  }

  // ------------------------------------------------------ the item list

  /** An item of the board: the server's `{ ...item, upvoteCount }`, whose
      `upvoteCount` the client may have rewritten. */
  datatype ListedItem = ListedItem(id: Id, item: RoadmapItem, upvoteCount: Option<int>)

  /** The board as `GET /roadmap` fills it. */
  function Board(db: Database.Db): (r: seq<ListedItem>)
    requires db.items.Valid()
    ensures |r| == |RoadmapItemController.GetAllRoadmapItems(db)|
    ensures forall k :: 0 <= k < |r| ==>
      var v := RoadmapItemController.GetAllRoadmapItems(db)[k];
      r[k] == ListedItem(v.id, v.item, Some(v.upvoteCount))
  {
    var vs := RoadmapItemController.GetAllRoadmapItems(db);
    seq(|vs|, k requires 0 <= k < |vs| => ListedItem(vs[k].id, vs[k].item, Some(vs[k].upvoteCount)))
  }

  /** `item.upvoteCount || 0`. */
  function CountOrZero(c: Option<int>): int {
    if c.Some? then c.value else 0
  }

  /** The `setRoadmapItems` updater of `handleUpvote`: the item with the id
      gets its count one up when the answer says `upvoted`, one down
      otherwise; every other item stays as it is. */
  function ApplyUpvote(items: seq<ListedItem>, itemId: Id, upvoted: bool): (r: seq<ListedItem>)
    ensures |r| == |items|
    ensures forall k :: 0 <= k < |items| && items[k].id != itemId ==> r[k] == items[k]
    ensures forall k :: 0 <= k < |items| && items[k].id == itemId ==>
      r[k].id == itemId && r[k].item == items[k].item
      && r[k].upvoteCount == Some(CountOrZero(items[k].upvoteCount) + (if upvoted then 1 else -1))
  {
    seq(|items|, k requires 0 <= k < |items| =>
      if items[k].id == itemId then
        items[k].(upvoteCount := Some(CountOrZero(items[k].upvoteCount) + (if upvoted then 1 else -1)))
      else items[k])
  }

  /** The board shows each listed item's live number of votes. */
  ghost predicate CountsMirror(items: seq<ListedItem>, db: Database.Db) {
    forall k :: 0 <= k < |items| ==> items[k].upvoteCount == Some(|VotesFor(db.votes.docs, items[k].id)|)
  }

  /** A freshly fetched board mirrors the votes. */
  lemma BoardMirrors(db: Database.Db)
    requires db.items.Valid()
    ensures CountsMirror(Board(db), db)
  {
    RoadmapItemController.GetAllListsEveryItem(db);
  }

  /** Applying the server's answer to a board that mirrored the votes
      before the toggle gives a board that mirrors them after it: the local
      +1 or -1 is exactly the move of the live count. */
  lemma ApplyUpvoteMirrorsServer(items: seq<ListedItem>, db: Database.Db, isObjectId: Id -> bool,
                                 itemId: Id, userId: Id, newId: Id, now: int)
    requires db.WellFormed() && newId !in db.votes.docs
    requires CountsMirror(items, db)
    ensures var r := UpvoteController.UpvoteItem(db, isObjectId, itemId, userId, newId, now);
      r.out.Ok? ==> CountsMirror(ApplyUpvote(items, itemId, r.out.value), r.db)
  {
    var r := UpvoteController.UpvoteItem(db, isObjectId, itemId, userId, newId, now);
    if r.out.Ok? {
      UpvoteController.UpvoteItemMovesLiveCount(db, isObjectId, itemId, userId, newId, now);
      var after := ApplyUpvote(items, itemId, r.out.value);
      forall k | 0 <= k < |after|
        ensures after[k].upvoteCount == Some(|VotesFor(r.db.votes.docs, after[k].id)|)
      {
        assert items[k].upvoteCount == Some(|VotesFor(db.votes.docs, items[k].id)|);
      }
    }
  }

  /** An answer that reverses the previous one restores every count the
      board showed; a count missing before comes back as 0. */
  lemma ApplyUpvoteUndone(items: seq<ListedItem>, itemId: Id, upvoted: bool)
    ensures var twice := ApplyUpvote(ApplyUpvote(items, itemId, upvoted), itemId, !upvoted);
      |twice| == |items| &&
      forall k :: 0 <= k < |items| ==>
        twice[k] == (if items[k].id == itemId then items[k].(upvoteCount := Some(CountOrZero(items[k].upvoteCount)))
                     else items[k])
  {
  }

  // ---------------------------------------------------- the user's upvotes

  /** `userUpvotes`, by the item each entry's `roadmapItem._id` names. */
  type UserUpvotes = seq<Id>

  /** The user's upvotes as `GET /upvotes/user/:id` fills them. */
  function FetchedUpvotes(db: Database.Db, isObjectId: Id -> bool, userId: Id): (r: UserUpvotes)
    requires db.votes.Valid()
    requires UpvoteController.GetUserUpvotes(db, isObjectId, userId).Ok?
    ensures forall x :: x in r <==> (userId, x) in Pairs(db.votes.docs)
  {
    var ids := UpvoteController.GetUserUpvotes(db, isObjectId, userId).value;
    var r := seq(|ids|, k requires 0 <= k < |ids| => db.votes.docs[ids[k]].roadmapItem);
    assert forall x :: x in r <==> (userId, x) in Pairs(db.votes.docs) by {
      forall x ensures x in r <==> (userId, x) in Pairs(db.votes.docs) {
        if x in r {
          var k :| 0 <= k < |ids| && r[k] == x;
          assert ids[k] in db.votes.docs && db.votes.docs[ids[k]].user == userId;
        }
        if (userId, x) in Pairs(db.votes.docs) {
          var j :| j in db.votes.docs && (userId, x) == (db.votes.docs[j].user, db.votes.docs[j].roadmapItem);
          assert j in ids;
          var k :| 0 <= k < |ids| && ids[k] == j;
          assert r[k] == x;
        }
      }
    }
    r
  }

  /** The `setUserUpvotes` updater of `handleUpvote`: one entry more on
      `upvoted`, otherwise every entry for the item filtered out. */
  function ApplyUserUpvote(prev: UserUpvotes, itemId: Id, upvoted: bool): (r: UserUpvotes)
    ensures upvoted ==> r == prev + [itemId]
    ensures !upvoted ==> itemId !in r && forall x :: x != itemId ==> (x in r <==> x in prev)
  {
    if upvoted then prev + [itemId] else WithoutItem(prev, itemId)
  }

  /** `prev.filter((upvote) => upvote.roadmapItem._id !== itemId)`. */
  function WithoutItem(prev: UserUpvotes, itemId: Id): (r: UserUpvotes)
    ensures forall x :: x in r <==> x in prev && x != itemId
    ensures |r| <= |prev|
  {
    if prev == [] then []
    else if prev[0] == itemId then WithoutItem(prev[1..], itemId)
    else [prev[0]] + WithoutItem(prev[1..], itemId)
  }

  /** `isItemUpvoted`. */
  predicate IsItemUpvoted(isLoggedIn: bool, upvotes: UserUpvotes, itemId: Id): (b: bool)
    ensures !isLoggedIn ==> !b
    ensures isLoggedIn ==> (b <==> itemId in upvotes)
  {
    isLoggedIn && itemId in upvotes
  }

  /** The user's upvotes name exactly the items the user has a vote for. */
  ghost predicate UpvotesMirror(upvotes: UserUpvotes, db: Database.Db, userId: Id) {
    forall x :: x in upvotes <==> (userId, x) in Pairs(db.votes.docs)
  }

  /** After the server's answer the heart of every item shows whether the
      user now has a vote for it: the toggled item flips, no other moves. */
  lemma ApplyUserUpvoteMirrorsServer(upvotes: UserUpvotes, db: Database.Db, isObjectId: Id -> bool,
                                     itemId: Id, userId: Id, newId: Id, now: int)
    requires db.WellFormed() && newId !in db.votes.docs && UniquePairs(db.votes.docs)
    requires UpvotesMirror(upvotes, db, userId)
    ensures var r := UpvoteController.UpvoteItem(db, isObjectId, itemId, userId, newId, now);
      r.out.Ok? ==>
        && UpvotesMirror(ApplyUserUpvote(upvotes, itemId, r.out.value), r.db, userId)
        && (forall x :: IsItemUpvoted(true, ApplyUserUpvote(upvotes, itemId, r.out.value), x)
                        <==> (userId, x) in Pairs(r.db.votes.docs))
  {
    UpvoteController.UpvoteItemToggles(db, isObjectId, itemId, userId, newId, now);
  }

  /** Signed out, no item shows as upvoted. */
  lemma NotUpvotedWhenSignedOut(upvotes: UserUpvotes, itemId: Id)
    ensures !IsItemUpvoted(false, upvotes, itemId)
  {
  }

  // ------------------------------------------------------- getStatusColor

  const DefaultStatusColor: string := "bg-slate-50 text-slate-700 border-slate-200"

  /** The `colors` table of `getStatusColor`, keyed by display labels. */
  const StatusColors: map<string, string> := map[
    "In Review" := "bg-orange-50 text-orange-700 border-orange-200",
    "Planned" := "bg-yellow-50 text-yellow-700 border-yellow-200",
    "In Progress" := "bg-blue-50 text-blue-700 border-blue-200",
    "Completed" := "bg-green-50 text-green-700 border-green-200",
    "Rejected" := "bg-red-50 text-red-700 border-red-200"]

  /** `colors[status] || default`. */
  function StatusColor(status: string): (c: string)
    ensures status !in StatusColors ==> c == DefaultStatusColor
  {
    if status in StatusColors then StatusColors[status] else DefaultStatusColor
  }

  /** None of the table's keys is a status the schema admits, so every
      stored item is drawn in the default slate. */
  lemma StoredStatusesGetDefault(status: string)
    requires status in Statuses
    ensures StatusColor(status) == DefaultStatusColor
  {
  }

  /** The same table keyed by the schema's status values. */
  const SchemaStatusColors: map<string, string> := map[
    "under_review" := "bg-orange-50 text-orange-700 border-orange-200",
    "planned" := "bg-yellow-50 text-yellow-700 border-yellow-200",
    "in_progress" := "bg-blue-50 text-blue-700 border-blue-200",
    "completed" := "bg-green-50 text-green-700 border-green-200",
    "rejected" := "bg-red-50 text-red-700 border-red-200"]

  function SchemaStatusColor(status: string): (c: string)
    ensures status !in SchemaStatusColors ==> c == DefaultStatusColor
  {
    if status in SchemaStatusColors then SchemaStatusColors[status] else DefaultStatusColor
  }

  /** Keyed by the schema's values, every stored status gets its own
      colour and none gets the default. */
  lemma SchemaStatusColorsDistinct(s: string, t: string)
    requires s in Statuses && t in Statuses
    ensures SchemaStatusColor(s) != DefaultStatusColor
    ensures s != t ==> SchemaStatusColor(s) != SchemaStatusColor(t)
  {
  }
}
