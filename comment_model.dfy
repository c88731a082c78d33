/** The `Comment` schema of backend/Models/Comment.js: a comment or a reply
    on a roadmap item, its validators and defaults, the pre-save hook, and
    the static `updateRoadmapItemCommentCount`. Also the JSON form in which
    comments travel to the browser, where a `replies` array holds either
    plain ids or populated comment objects. */
module CommentModel {
  import opened Common
  import opened Collections
  import opened RoadmapItemModel

  const ContentMaxLength: nat := 1000
  /** The `max` validator of `depth`: top-level comments have depth 0. */
  const MaxDepth: int := 2

  datatype Comment = Comment(
    content: string,
    roadmapItem: Id,
    user: Id,
    parentComment: Option<Id>,
    depth: int,
    replies: seq<Id>,
    isDeleted: bool,
    createdAt: int,
    updatedAt: int)

  /** What Mongoose's validators check on save. */
  predicate Validates(c: Comment): (b: bool)
    ensures b ==> 0 < |c.content| <= ContentMaxLength && c.depth <= MaxDepth
    ensures 0 < |c.content| && 2 * |c.content| <= ContentMaxLength && c.depth <= MaxDepth ==> b
  {
    RequiredWithin(c.content, ContentMaxLength) && c.depth <= MaxDepth
  }

  /** Every stored comment would pass its validators again. */
  ghost predicate AllValidate(docs: map<Id, Comment>) {
    forall id :: id in docs ==> Validates(docs[id])
  }

  /** A document that can sit in the collection: valid, with its content
      already through the `trim` setter. */
  predicate ValidComment(c: Comment) {
    Validates(c) && IsTrimmed(c.content)
  }

  /** Assigning `content`: the `trim` setter runs. An absent body field
      (`undefined`) fails `required` exactly as the empty string does, so it
      is taken as "". */
  function TrimmedContent(content: Option<string>): (r: string)
    ensures IsTrimmed(r)
    ensures content.None? ==> r == []
  {
    Trim(content.GetOr(""))
  }

  /** `new CommentModel({...})` at time `now`: no replies, not deleted, both
      timestamps at `now`. */
  function NewComment(content: Option<string>, roadmapItem: Id, user: Id,
                      parentComment: Option<Id>, depth: int, now: int): (r: Comment)
    ensures IsTrimmed(r.content) && r.roadmapItem == roadmapItem && r.user == user
    ensures r.parentComment == parentComment && r.depth == depth
    ensures r.replies == [] && !r.isDeleted && r.createdAt == now && r.updatedAt == now
  {
    Comment(TrimmedContent(content), roadmapItem, user, parentComment, depth, [], false, now, now)
  }

  /** `comment.save()` at time `now`; `None` is the ValidationError. */
  function SaveComment(c: Comment, now: int): (r: Option<Comment>)
    ensures r.Some? <==> Validates(c)
    ensures r.Some? ==> r.value.updatedAt == now && r.value.(updatedAt := c.updatedAt) == c
  {
    if Validates(c) then Some(c.(updatedAt := now)) else None
  }

  /** `comment.content = content`, through the setter. */
  function SetContent(c: Comment, content: Option<string>): (r: Comment)
    ensures IsTrimmed(r.content)
    ensures r.(content := c.content) == c
  {
    c.(content := TrimmedContent(content))
  }

  /** A new comment saves exactly when its trimmed content is non-empty and
      at most 1000 characters and its depth is at most 2; the stored document
      is then a valid one. */
  lemma NewCommentSaves(content: Option<string>, roadmapItem: Id, user: Id,
                        parentComment: Option<Id>, depth: int, now: int)
    ensures var r := SaveComment(NewComment(content, roadmapItem, user, parentComment, depth, now), now);
      && (r.Some? <==> RequiredWithin(TrimmedContent(content), 1000) && depth <= 2)
      && (r.Some? ==> ValidComment(r.value) && r.value.replies == [] && !r.value.isDeleted
                      && r.value.createdAt == now && r.value.updatedAt == now)
  {
    var c := NewComment(content, roadmapItem, user, parentComment, depth, now);
    assert c.content == TrimmedContent(content) && c.depth == depth;
  }

  /** `maxlength` counts UTF-16 units: 999 letters and one emoji are 1000
      characters but 1001 units, one too many for a comment. */
  lemma AstralCharacterCountsTwice()
    ensures var s := seq(999, _ => 'a') + ['\U{1F600}'];
      |s| == 1000 && Utf16Length(s) == 1001 && !RequiredWithin(s, ContentMaxLength)
  {
    var a := seq(999, _ => 'a');
    Utf16LengthBmp(a);
    Utf16LengthAppend(a, ['\U{1F600}']);
  }

  /** A comment whose content is blank after trimming never saves. */
  lemma BlankContentRejected(c: Comment, content: Option<string>, now: int)
    requires content.None? || AllWhitespace(content.value)
    ensures SaveComment(SetContent(c, content), now).None?
  {
    if content.Some? {
      TrimEmptyIffBlank(content.value);
    }
  }

  /** The parent after `parentComment.replies.push(reply)` and its save at
      time `now`. */
  function Linked(p: Comment, reply: Id, now: int): (r: Comment)
    ensures Validates(p) ==> Validates(r)
    ensures r.replies == p.replies + [reply] && r.updatedAt == now
    ensures r.(replies := p.replies, updatedAt := p.updatedAt) == p
  {
    p.(replies := p.replies + [reply], updatedAt := now)
  }

  /** Re-saving a stored comment succeeds and keeps it valid. */
  lemma SaveCommentKeepsValid(c: Comment, now: int)
    requires ValidComment(c)
    ensures SaveComment(c, now).Some? && ValidComment(SaveComment(c, now).value)
  {
  }

  /** The ids of the comments of `item` that are not soft-deleted: what
      `countDocuments({ roadmapItem, isDeleted: false })` counts. Replies
      count as well as top-level comments. */
  function LiveComments(docs: map<Id, Comment>, item: Id): set<Id> {
    set id | id in docs && docs[id].roadmapItem == item && !docs[id].isDeleted
  }

  /** Storing a new comment under a fresh id adds it to the live comments
      of its item when it is not deleted, and changes no other item's. */
  lemma LiveAfterInsert(docs: map<Id, Comment>, id: Id, c: Comment)
    requires id !in docs && !c.isDeleted
    ensures LiveComments(docs[id := c], c.roadmapItem) == LiveComments(docs, c.roadmapItem) + {id}
    ensures |LiveComments(docs[id := c], c.roadmapItem)| == |LiveComments(docs, c.roadmapItem)| + 1
    ensures forall item :: item != c.roadmapItem ==> LiveComments(docs[id := c], item) == LiveComments(docs, item)
  {
    assert LiveComments(docs[id := c], c.roadmapItem) == LiveComments(docs, c.roadmapItem) + {id};
  }

  /** Replacing a stored comment by one with the same item and the same
      deletion flag leaves every live count as it was. */
  lemma LiveAfterUpdate(docs: map<Id, Comment>, id: Id, c: Comment)
    requires id in docs && c.roadmapItem == docs[id].roadmapItem && c.isDeleted == docs[id].isDeleted
    ensures forall item :: LiveComments(docs[id := c], item) == LiveComments(docs, item)
  {
  }

  /** Soft-deleting a live comment takes exactly it out of its item's live
      comments. */
  lemma LiveAfterDelete(docs: map<Id, Comment>, id: Id, c: Comment)
    requires id in docs && !docs[id].isDeleted
    requires c.roadmapItem == docs[id].roadmapItem && c.isDeleted
    ensures LiveComments(docs[id := c], c.roadmapItem) == LiveComments(docs, c.roadmapItem) - {id}
    ensures |LiveComments(docs[id := c], c.roadmapItem)| == |LiveComments(docs, c.roadmapItem)| - 1
    ensures forall item :: item != c.roadmapItem ==> LiveComments(docs[id := c], item) == LiveComments(docs, item)
  {
    assert LiveComments(docs[id := c], c.roadmapItem) == LiveComments(docs, c.roadmapItem) - {id};
  }

  /** `updateRoadmapItemCommentCount(item)`: `findByIdAndUpdate` stores the
      live count in `commentCount`, without validators and without the
      pre-save hook; an unknown id updates nothing. */
  function UpdateRoadmapItemCommentCount(items: Collection<RoadmapItem>, docs: map<Id, Comment>, item: Id)
    : (r: Collection<RoadmapItem>)
    requires items.Valid()
    ensures r.Valid() && r.order == items.order && r.docs.Keys == items.docs.Keys
    ensures item in items.docs ==>
      r.docs[item] == items.docs[item].(commentCount := |LiveComments(docs, item)|)
    ensures forall id :: id in items.docs && id != item ==> r.docs[id] == items.docs[id]
  {
    if item in items.docs then
      items.Update(item, items.docs[item].(commentCount := |LiveComments(docs, item)|))
    else items
  }

  /** Recounting twice is recounting once. */
  lemma RecountIdempotent(items: Collection<RoadmapItem>, docs: map<Id, Comment>, item: Id)
    requires items.Valid()
    ensures UpdateRoadmapItemCommentCount(UpdateRoadmapItemCommentCount(items, docs, item), docs, item)
         == UpdateRoadmapItemCommentCount(items, docs, item)
  {
    var once := UpdateRoadmapItemCommentCount(items, docs, item);
    var twice := UpdateRoadmapItemCommentCount(once, docs, item);
    assert twice.docs == once.docs;
  }

  /** A recount keeps every stored item valid: `commentCount` has no
      validator. */
  lemma RecountKeepsItemsValid(items: Collection<RoadmapItem>, docs: map<Id, Comment>, item: Id)
    requires items.Valid()
    requires forall id :: id in items.docs ==> ValidItem(items.docs[id])
    ensures var r := UpdateRoadmapItemCommentCount(items, docs, item);
      forall id :: id in r.docs ==> ValidItem(r.docs[id])
  {
  }

  /** A comment as it appears in a JSON `replies` array: a bare, unpopulated
      id, or a populated document whose own `replies` are again nodes. */
  datatype Node =
    | Raw(id: Id)
    | Doc(id: Id, doc: Comment, replies: seq<Node>)

  function Raws(ids: seq<Id>): (r: seq<Node>)
    ensures |r| == |ids|
    ensures forall k :: 0 <= k < |r| ==> r[k] == Raw(ids[k])
  {
    if ids == [] then [] else [Raw(ids[0])] + Raws(ids[1..])
  }

  /** A document serialised without populating its replies. */
  function AsNode(id: Id, c: Comment): (n: Node)
    ensures n.Doc? && n.id == id && n.doc == c
    ensures |n.replies| == |c.replies|
    ensures forall k :: 0 <= k < |n.replies| ==> n.replies[k] == Raw(c.replies[k])
  {
    Doc(id, c, Raws(c.replies))
  }
}
