/** backend/Controllers/RoadmapItemController.js: the two read routes of
    roadmap items. Both attach a live `upvoteCount`, counted from the votes,
    beside the cached `upvotes` field; neither writes anything. */
module RoadmapItemController {
  import opened Common
  import opened Collections
  import opened Sorting
  import opened RoadmapItemModel
  import opened UpvoteModel
  import opened Database

  const ItemNotFound: string := "Roadmap item not found"

  /** `{ ...item.toObject(), upvoteCount }`. */
  datatype ItemView = ItemView(id: Id, item: RoadmapItem, upvoteCount: nat)

  /** The sort key of `.sort({ createdAt: -1 })`. */
  function NewestItemFirst(docs: map<Id, RoadmapItem>): Id -> int {
    id => if id in docs then -docs[id].createdAt else 0
  }

  /** The view of a stored item. */
  function View(db: Db, id: Id): (v: ItemView)
    requires id in db.items.docs
    ensures v.id == id && v.item == db.items.docs[id]
    ensures v.upvoteCount == |VotesFor(db.votes.docs, id)|
  {
    ItemView(id, db.items.docs[id], |VotesFor(db.votes.docs, id)|)
  }

  function Views(db: Db, ids: seq<Id>): (r: seq<ItemView>)
    requires forall id :: id in ids ==> id in db.items.docs
    ensures |r| == |ids|
    ensures forall k :: 0 <= k < |r| ==> r[k] == View(db, ids[k])
  {
    if ids == [] then [] else [View(db, ids[0])] + Views(db, ids[1..])
  }

  /** `GET /roadmap`: `find()` with no filter, newest first. The route
      takes no query: the status, category and sort the client appends to
      the URL are not read. */
  function GetAllRoadmapItems(db: Db): (r: seq<ItemView>)
    requires db.items.Valid()
    ensures |r| == |db.items.order|
    ensures forall k :: 0 <= k < |r| ==> r[k].id in db.items.docs && r[k] == View(db, r[k].id)
  {
    var ids := SortBy(db.items.order, NewestItemFirst(db.items.docs));
    SortByKeeps(db.items.order, NewestItemFirst(db.items.docs));
    Views(db, ids)
  }

  /** The ids of a listing, in order. */
  function ViewIds(vs: seq<ItemView>): (r: seq<Id>)
    ensures |r| == |vs| && forall k :: 0 <= k < |r| ==> r[k] == vs[k].id
  {
    seq(|vs|, k requires 0 <= k < |vs| => vs[k].id)
  }

  /** The listing holds every stored item exactly once (no filtering), each
      as stored with its live vote count. */
  lemma GetAllListsEveryItem(db: Db)
    requires db.items.Valid()
    ensures var r := GetAllRoadmapItems(db);
      && NoDuplicates(ViewIds(r))
      && (forall id :: id in ViewIds(r) <==> id in db.items.docs)
      && (forall k :: 0 <= k < |r| ==> r[k].item == db.items.docs[r[k].id]
                                        && r[k].upvoteCount == |VotesFor(db.votes.docs, r[k].id)|)
  {
    var key := NewestItemFirst(db.items.docs);
    var ids := SortBy(db.items.order, key);
    SortByKeeps(db.items.order, key);
    var r := Views(db, ids);
    assert r == GetAllRoadmapItems(db);
    assert ViewIds(r) == ids;
  }

  /** The listing is newest first. */
  lemma GetAllNewestFirst(db: Db)
    requires db.items.Valid()
    ensures var r := GetAllRoadmapItems(db);
      forall i, j :: 0 <= i < j < |r| ==> r[i].item.createdAt >= r[j].item.createdAt
  {
    var key := NewestItemFirst(db.items.docs);
    SortByKeeps(db.items.order, key);
    ViewsNewestFirst(db, SortBy(db.items.order, key));
  }

  lemma ViewsNewestFirst(db: Db, ids: seq<Id>)
    requires forall id :: id in ids ==> id in db.items.docs
    requires SortedBy(ids, NewestItemFirst(db.items.docs))
    ensures forall i, j :: 0 <= i < j < |ids| ==> Views(db, ids)[i].item.createdAt >= Views(db, ids)[j].item.createdAt
  {
    var key := NewestItemFirst(db.items.docs);
    var r := Views(db, ids);
    SortedByPairs(ids, key);
    forall i, j | 0 <= i < j < |r| ensures r[i].item.createdAt >= r[j].item.createdAt {
      assert key(ids[i]) <= key(ids[j]);
    }
  }

  /** In a database whose counters are in sync, the live count of every
      listed item agrees with its cached `upvotes`. */
  lemma GetAllCountsMatchCache(db: Db)
    requires db.items.Valid() && db.UpvotesInSync()
    ensures var r := GetAllRoadmapItems(db);
      forall k :: 0 <= k < |r| ==> r[k].upvoteCount == r[k].item.upvotes
  {
    GetAllListsEveryItem(db);
  }

  /** `GET /roadmap/:id`. A malformed id makes `findById` throw a CastError,
      answered with 500. */
  function GetRoadmapItem(db: Db, isObjectId: Id -> bool, id: Id): (r: Outcome<ItemView>)
    ensures !isObjectId(id) ==> r == ServerError
    ensures isObjectId(id) && id !in db.items.docs ==> r == NotFound(ItemNotFound)
    ensures r.Ok? <==> isObjectId(id) && id in db.items.docs
    ensures r.Ok? ==> r.value.id == id && r.value.item == db.items.docs[id]
                      && r.value.upvoteCount == |VotesFor(db.votes.docs, id)|
  {
    if !isObjectId(id) then ServerError
    else if id !in db.items.docs then NotFound(ItemNotFound)
    else Ok(View(db, id))
  }

  /** An item fetched by id is exactly its entry in the listing. */
  lemma GetItemAgreesWithListing(db: Db, isObjectId: Id -> bool, id: Id)
    requires db.items.Valid() && isObjectId(id) && id in db.items.docs
    ensures var all := GetAllRoadmapItems(db);
      exists k :: 0 <= k < |all| && all[k] == GetRoadmapItem(db, isObjectId, id).value
  {
    GetAllListsEveryItem(db);
    var all := GetAllRoadmapItems(db);
    var ids := ViewIds(all);
    assert id in ids;
    var k :| 0 <= k < |ids| && ids[k] == id;
    assert all[k] == View(db, id);
  }
}
