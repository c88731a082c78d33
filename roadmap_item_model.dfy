/** The `RoadmapItem` schema of backend/Models/RoadmapItem.js: the fields of
    a roadmap proposal, what Mongoose's setters and validators make of them,
    the defaults, and the pre-save hook that stamps `updatedAt`. */
module RoadmapItemModel {
  import opened Common

  const TitleMaxLength: nat := 100
  const DescriptionMaxLength: nat := 1000
  const Categories: set<string> := {"feature", "enhancement", "bugfix", "other"}
  const Statuses: set<string> := {"under_review", "planned", "in_progress", "completed", "rejected"}
  const MinPriority: int := 1
  const MaxPriority: int := 5
  const DefaultPriority: int := 3

  /** A stored roadmap item. `upvotes` and `commentCount` are the cached
      counters; Mongoose's `Number` puts no bound on them. */
  datatype RoadmapItem = RoadmapItem(
    title: string,
    description: string,
    category: string,
    status: string,
    createdBy: Id,
    createdAt: int,
    updatedAt: int,
    targetRelease: Option<string>,
    upvotes: int,
    priority: int,
    commentCount: int)

  /** A `required`, `maxlength`-bounded string: `required` rejects the empty
      string, and `maxlength` compares JavaScript's UTF-16 `length`. */
  predicate RequiredWithin(s: string, maxLength: nat): (b: bool)
    ensures b ==> 0 < |s| <= maxLength
    ensures 0 < |s| && 2 * |s| <= maxLength ==> b
  {
    s != [] && Utf16Length(s) <= maxLength
  }

  /** What Mongoose's validators check when the item is saved. */
  predicate Validates(it: RoadmapItem): (b: bool)
    ensures b ==> 0 < |it.title| <= TitleMaxLength && 0 < |it.description| <= DescriptionMaxLength
    ensures b ==> it.category in Categories && it.status in Statuses && MinPriority <= it.priority <= MaxPriority
  {
    && RequiredWithin(it.title, TitleMaxLength)
    && RequiredWithin(it.description, DescriptionMaxLength)
    && it.category in Categories
    && it.status in Statuses
    && MinPriority <= it.priority <= MaxPriority
  }

  /** The `trim` setters have run (a trimmed string is one `trim` leaves
      alone: lemma Common.TrimFixesTrimmed) on every string field that has one. */
  predicate Trimmed(it: RoadmapItem) {
    && IsTrimmed(it.title)
    && IsTrimmed(it.description)
    && (it.targetRelease.Some? ==> IsTrimmed(it.targetRelease.value))
  }

  /** A document that can sit in the collection. */
  predicate ValidItem(it: RoadmapItem) {
    Validates(it) && Trimmed(it)
  }

  /** `new RoadmapItemModel({...})` at time `now`: setters trim, absent
      fields take their defaults. */
  function NewItem(title: string, description: string, category: string, status: string,
                   createdBy: Id, targetRelease: Option<string>, priority: Option<int>, now: int): (r: RoadmapItem)
    ensures Trimmed(r) && r.createdBy == createdBy && r.category == category && r.status == status
    ensures r.upvotes == 0 && r.commentCount == 0 && r.createdAt == now && r.updatedAt == now
    ensures priority.None? ==> r.priority == DefaultPriority
  {
    RoadmapItem(
      Trim(title), Trim(description), category, status, createdBy, now, now,
      match targetRelease case Some(t) => Some(Trim(t)) case None => None,
      0, priority.GetOr(DefaultPriority), 0)
  }

  /** `item.save()` at time `now`: the validators run, then the pre-save hook
      stamps `updatedAt`. `None` is the ValidationError save rejects with. */
  function SaveItem(it: RoadmapItem, now: int): (r: Option<RoadmapItem>)
    ensures r.Some? <==> Validates(it)
    ensures r.Some? ==> r.value.updatedAt == now && r.value.(updatedAt := it.updatedAt) == it
  {
    if Validates(it) then Some(it.(updatedAt := now)) else None
  }

  /** A new item saves exactly when its trimmed title and description are
      non-empty and within bounds, its category and status are among the
      enums and its priority (3 when absent) lies in 1..5. */
  lemma NewItemSaves(title: string, description: string, category: string, status: string,
                     createdBy: Id, targetRelease: Option<string>, priority: Option<int>, now: int)
    ensures SaveItem(NewItem(title, description, category, status, createdBy, targetRelease, priority, now), now).Some?
      <==> && RequiredWithin(Trim(title), 100) && RequiredWithin(Trim(description), 1000)
           && category in Categories && status in Statuses
           && (priority.None? || 1 <= priority.value <= 5)
  {
    var it := NewItem(title, description, category, status, createdBy, targetRelease, priority, now);
    assert it.title == Trim(title) && it.description == Trim(description);
    assert it.category == category && it.status == status;
    assert it.priority == if priority.Some? then priority.value else 3;
  }

  /** A new item that saves is a valid document with trimmed strings, no
      upvotes, no comments, the given or the default priority, and both
      timestamps at the moment of creation. */
  lemma NewItemDefaults(title: string, description: string, category: string, status: string,
                        createdBy: Id, targetRelease: Option<string>, priority: Option<int>, now: int)
    ensures var r := SaveItem(NewItem(title, description, category, status, createdBy, targetRelease, priority, now), now);
      r.Some? ==>
        && ValidItem(r.value)
        && r.value.title == Trim(title) && r.value.description == Trim(description)
        && r.value.upvotes == 0 && r.value.commentCount == 0
        && r.value.priority == (if priority.Some? then priority.value else 3)
        && r.value.createdAt == now && r.value.updatedAt == now
  {
    var it := NewItem(title, description, category, status, createdBy, targetRelease, priority, now);
    assert Trimmed(it);
  }

  /** Saving keeps a valid item valid, and a second save at the same instant
      changes nothing. */
  lemma SaveItemKeepsValid(it: RoadmapItem, now: int)
    requires ValidItem(it)
    ensures SaveItem(it, now).Some? && ValidItem(SaveItem(it, now).value)
    ensures SaveItem(SaveItem(it, now).value, now) == SaveItem(it, now)
  {
  }
}
