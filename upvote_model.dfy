/** The `Upvote` schema of backend/Models/Upvote.js: one user's vote for one
    roadmap item, with the unique compound index on (user, roadmapItem). */
module UpvoteModel {
  import opened Common
  import opened Collections

  datatype Upvote = Upvote(user: Id, roadmapItem: Id, createdAt: int)

  /** `new UpvoteModel({ user, roadmapItem })` at time `now`. */
  function NewUpvote(user: Id, roadmapItem: Id, now: int): (v: Upvote)
    ensures v.user == user && v.roadmapItem == roadmapItem && v.createdAt == now
  {
    Upvote(user, roadmapItem, now)
  }

  /** What the unique index `{ user: 1, roadmapItem: 1 }` enforces: no two
      stored votes share a user and an item. */
  ghost predicate UniquePairs(docs: map<Id, Upvote>) {
    forall a, b :: a in docs && b in docs && a != b ==>
      docs[a].user != docs[b].user || docs[a].roadmapItem != docs[b].roadmapItem
  }

  /** The (user, item) pairs that have a vote. */
  function Pairs(docs: map<Id, Upvote>): set<(Id, Id)> {
    set id | id in docs :: (docs[id].user, docs[id].roadmapItem)
  }

  /** The votes for `item`: what `countDocuments({ roadmapItem })` counts. */
  function VotesFor(docs: map<Id, Upvote>, item: Id): set<Id> {
    set id | id in docs && docs[id].roadmapItem == item
  }

  /** Adding a vote under a fresh id adds its pair. */
  lemma InsertVotePairs(docs: map<Id, Upvote>, id: Id, v: Upvote)
    requires id !in docs
    ensures Pairs(docs[id := v]) == Pairs(docs) + {(v.user, v.roadmapItem)}
  {
    var d := docs[id := v];
    forall x ensures x in Pairs(d) <==> x in Pairs(docs) || x == (v.user, v.roadmapItem) {
      if x in Pairs(docs) {
        var j :| j in docs && x == (docs[j].user, docs[j].roadmapItem);
        assert j in d && d[j] == docs[j];
      }
      if x == (v.user, v.roadmapItem) {
        assert id in d && d[id] == v;
      }
    }
  }

  /** Adding a vote under a fresh id adds one vote for its item; no other
      item's count moves. */
  lemma InsertVoteCount(docs: map<Id, Upvote>, id: Id, v: Upvote)
    requires id !in docs
    ensures VotesFor(docs[id := v], v.roadmapItem) == VotesFor(docs, v.roadmapItem) + {id}
    ensures |VotesFor(docs[id := v], v.roadmapItem)| == |VotesFor(docs, v.roadmapItem)| + 1
    ensures forall item :: item != v.roadmapItem ==> VotesFor(docs[id := v], item) == VotesFor(docs, item)
  {
    assert VotesFor(docs[id := v], v.roadmapItem) == VotesFor(docs, v.roadmapItem) + {id};
  }

  /** Removing the vote stored under `id` removes its pair when pairs are
      unique. */
  lemma RemoveVotePairs(docs: map<Id, Upvote>, id: Id)
    requires id in docs && UniquePairs(docs)
    ensures Pairs(docs - {id}) == Pairs(docs) - {(docs[id].user, docs[id].roadmapItem)}
  {
    var d := docs - {id};
    var p := (docs[id].user, docs[id].roadmapItem);
    forall x ensures x in Pairs(d) <==> x in Pairs(docs) && x != p {
      if x in Pairs(d) {
        var j :| j in d && x == (d[j].user, d[j].roadmapItem);
        assert j in docs && j != id;
      }
      if x in Pairs(docs) && x != p {
        var j :| j in docs && x == (docs[j].user, docs[j].roadmapItem);
        assert j != id && j in d;
      }
    }
  }

  /** Removing the vote stored under `id` removes one vote for its item; no
      other item's count moves. */
  lemma RemoveVoteCount(docs: map<Id, Upvote>, id: Id)
    requires id in docs
    ensures VotesFor(docs - {id}, docs[id].roadmapItem) == VotesFor(docs, docs[id].roadmapItem) - {id}
    ensures |VotesFor(docs - {id}, docs[id].roadmapItem)| == |VotesFor(docs, docs[id].roadmapItem)| - 1
    ensures forall item :: item != docs[id].roadmapItem ==> VotesFor(docs - {id}, item) == VotesFor(docs, item)
  {
    assert VotesFor(docs - {id}, docs[id].roadmapItem) == VotesFor(docs, docs[id].roadmapItem) - {id};
  }

  /** Adding a vote for a pair that had none keeps the pairs unique. */
  lemma InsertKeepsUnique(docs: map<Id, Upvote>, id: Id, v: Upvote)
    requires id !in docs && UniquePairs(docs)
    requires (v.user, v.roadmapItem) !in Pairs(docs)
    ensures UniquePairs(docs[id := v])
  {
    var d := docs[id := v];
    forall a, b | a in d && b in d && a != b
      ensures d[a].user != d[b].user || d[a].roadmapItem != d[b].roadmapItem
    {
      if a == id {
        assert (d[b].user, d[b].roadmapItem) in Pairs(docs);
      } else if b == id {
        assert (d[a].user, d[a].roadmapItem) in Pairs(docs);
      }
    }
  }
}
