/** frontend/src/pages/RoadmapApp/components/CommentsSection.jsx: the
    client's copy of an item's comment forest, as `GET /comments/:id` sends
    it, the helpers that walk and rewrite it, and the displayed
    `commentCount` that each handler adjusts after a successful request. */
module CommentsSection {
  import opened Common

  /** A comment as the client holds it: the populated JSON document, with
      its replies nested under it. */
  datatype Comment = Comment(id: Id, content: string, user: Id, createdAt: int, updatedAt: int,
                             replies: seq<Comment>)

  /** The fields a server answer carries; `{ ...comment, ...updated }` takes
      every field the answer has and keeps the others. */
  datatype Patch = Patch(id: Option<Id>, content: Option<string>, user: Option<Id>,
                         createdAt: Option<int>, updatedAt: Option<int>, replies: Option<seq<Comment>>)

  /** The number of comments in a forest: each comment once, with all of its
      descendants. */
  function Size(cs: seq<Comment>): nat
    decreases cs
  {
    if cs == [] then 0 else 1 + Size(cs[0].replies) + Size(cs[1..])
  }

  /** The comments of a forest in pre-order: each comment, then its replies'
      forest, then its later siblings. */
  function Preorder(cs: seq<Comment>): seq<Comment>
    decreases cs
  {
    if cs == [] then [] else [cs[0]] + Preorder(cs[0].replies) + Preorder(cs[1..])
  }

  /** The ids of a forest, in pre-order. */
  function Ids(cs: seq<Comment>): seq<Id>
    decreases cs
  {
    if cs == [] then [] else [cs[0].id] + Ids(cs[0].replies) + Ids(cs[1..])
  }

  /** The size of a forest is the number of comments it lists. */
  lemma {:induction false} SizeCountsPreorder(cs: seq<Comment>)
    ensures |Preorder(cs)| == Size(cs)
    decreases cs
  {
    if cs != [] {
      SizeCountsPreorder(cs[0].replies);
      SizeCountsPreorder(cs[1..]);
    }
  }

  /** `Ids` lists the ids of `Preorder`, position by position. */
  lemma {:induction false} IdsOfPreorder(cs: seq<Comment>)
    ensures |Ids(cs)| == |Preorder(cs)|
    ensures forall k :: 0 <= k < |Ids(cs)| ==> Ids(cs)[k] == Preorder(cs)[k].id
    decreases cs
  {
    if cs != [] {
      IdsOfPreorder(cs[0].replies);
      IdsOfPreorder(cs[1..]);
    }
  }

  lemma {:induction false} SizeAppend(a: seq<Comment>, b: seq<Comment>)
    ensures Size(a + b) == Size(a) + Size(b)
  {
    if a != [] {
      assert (a + b)[0] == a[0] && (a + b)[1..] == a[1..] + b;
      SizeAppend(a[1..], b);
    } else {
      assert a + b == b;
    }
  }

  /** `countAllComments`: a `forEach` that counts each comment and adds the
      count of its replies' forest. */
  method CountAllComments(list: seq<Comment>) returns (count: nat)
    ensures count == Size(list)
    decreases list
  {
    count := 0;
    var i := 0;
    while i < |list|
      invariant 0 <= i <= |list|
      invariant count == Size(list[..i])
    {
      var c := list[i];
      count := count + 1;
      if |c.replies| > 0 {
        var sub := CountAllComments(c.replies);
        count := count + sub;
      }
      TakeSnoc(list, i);
      SizeAppend(list[..i], [c]);
      i := i + 1;
    }
    assert list[..i] == list;
  }

  /** The first comment in pre-order with the given id. */
  function Find(cs: seq<Comment>, id: Id): (r: Option<Comment>)
    ensures r.Some? <==> id in Ids(cs)
    ensures r.Some? ==> r.value.id == id
    decreases cs
  {
    if cs == [] then None
    else if cs[0].id == id then Some(cs[0])
    else
      var f := Find(cs[0].replies, id);
      if f.Some? then f else Find(cs[1..], id)
  }

  /** The first element of a list with the given id. */
  function FirstWithId(cs: seq<Comment>, id: Id): Option<Comment> {
    if cs == [] then None else if cs[0].id == id then Some(cs[0]) else FirstWithId(cs[1..], id)
  }

  lemma {:induction false} FirstWithIdAppend(a: seq<Comment>, b: seq<Comment>, id: Id)
    ensures FirstWithId(a + b, id) == if FirstWithId(a, id).Some? then FirstWithId(a, id) else FirstWithId(b, id)
  {
    if a != [] {
      assert (a + b)[0] == a[0] && (a + b)[1..] == a[1..] + b;
      FirstWithIdAppend(a[1..], b, id);
    } else {
      assert a + b == b;
    }
  }

  /** `Find` answers the first match of the flattened pre-order listing: the
      recursion visits the comments in exactly that order. */
  lemma {:induction false} FindIsFirstInPreorder(cs: seq<Comment>, id: Id)
    ensures Find(cs, id) == FirstWithId(Preorder(cs), id)
    decreases cs
  {
    if cs != [] {
      FindIsFirstInPreorder(cs[0].replies, id);
      FindIsFirstInPreorder(cs[1..], id);
      FirstWithIdAppend([cs[0]] + Preorder(cs[0].replies), Preorder(cs[1..]), id);
      FirstWithIdAppend([cs[0]], Preorder(cs[0].replies), id);
    }
  }

  /** `findCommentInList`: a `for` loop over the list that returns the
      comment with the id, or the first match in its replies, and `null`
      when the list is exhausted. */
  method FindCommentInList(list: seq<Comment>, id: Id) returns (found: Option<Comment>)
    ensures found == Find(list, id)
    decreases list
  {
    var i := 0;
    while i < |list|
      invariant 0 <= i <= |list|
      invariant Find(list, id) == Find(list[i..], id)
    {
      var c := list[i];
      assert list[i..][0] == c && list[i..][1..] == list[i + 1..];
      if c.id == id {
        return Some(c);
      }
      if |c.replies| > 0 {
        var f := FindCommentInList(c.replies, id);
        if f.Some? {
          return f;
        }
      }
      i := i + 1;
    }
    return None;
  }

  /** The shape shared by `updateCommentInList` and `addReplyToComment`:
      `map` the list, rewrite a comment with the id by `f` without looking
      inside it, and recurse into the non-empty replies of the others. */
  function ApplyAt(cs: seq<Comment>, id: Id, f: Comment -> Comment): (r: seq<Comment>)
    ensures |r| == |cs|
    ensures forall k :: 0 <= k < |cs| && cs[k].id == id ==> r[k] == f(cs[k])
    ensures forall k :: 0 <= k < |cs| && cs[k].id != id ==>
      r[k].id == cs[k].id && r[k].content == cs[k].content && r[k].user == cs[k].user
      && r[k].createdAt == cs[k].createdAt && r[k].updatedAt == cs[k].updatedAt
    decreases cs
  {
    if cs == [] then []
    else
      var c := cs[0];
      var c' := if c.id == id then f(c)
                else if |c.replies| > 0 then c.(replies := ApplyAt(c.replies, id, f))
                else c;
      [c'] + ApplyAt(cs[1..], id, f)
  }

  /** A forest without the id is left as it is. */
  lemma {:induction false} ApplyAtAbsent(cs: seq<Comment>, id: Id, f: Comment -> Comment)
    requires id !in Ids(cs)
    ensures ApplyAt(cs, id, f) == cs
    decreases cs
  {
    if cs != [] {
      ApplyAtAbsent(cs[0].replies, id, f);
      ApplyAtAbsent(cs[1..], id, f);
    }
  }

  /** When `f` keeps the id, the first comment with the id afterwards is the
      rewritten first comment with the id before. */
  lemma {:induction false} FindAfterApplyAt(cs: seq<Comment>, id: Id, f: Comment -> Comment)
    requires id in Ids(cs)
    requires forall c: Comment :: c.id == id ==> f(c).id == id
    ensures Find(ApplyAt(cs, id, f), id) == Some(f(Find(cs, id).value))
    decreases cs
  {
    var r := ApplyAt(cs, id, f);
    assert r[1..] == ApplyAt(cs[1..], id, f);
    if cs[0].id != id {
      if id in Ids(cs[0].replies) {
        FindAfterApplyAt(cs[0].replies, id, f);
        assert r[0] == cs[0].(replies := ApplyAt(cs[0].replies, id, f));
      } else {
        ApplyAtAbsent(cs[0].replies, id, f);
        assert r[0] == cs[0];
        FindAfterApplyAt(cs[1..], id, f);
      }
    }
  }

  /** With unique ids exactly one comment is rewritten, so the forest's size
      changes by the change in that comment's size. */
  lemma {:induction false} ApplyAtSize(cs: seq<Comment>, id: Id, f: Comment -> Comment)
    requires NoDuplicates(Ids(cs)) && id in Ids(cs)
    ensures Size(ApplyAt(cs, id, f)) + Size([Find(cs, id).value])
         == Size(cs) + Size([f(Find(cs, id).value)])
    decreases cs
  {
    var r := ApplyAt(cs, id, f);
    assert r[1..] == ApplyAt(cs[1..], id, f);
    var c := cs[0];
    UniqueSplit(cs);
    if c.id == id {
      ApplyAtAbsent(cs[1..], id, f);
      assert Size([f(c)]) == 1 + Size(f(c).replies);
    } else if id in Ids(c.replies) {
      ApplyAtSize(c.replies, id, f);
      ApplyAtAbsent(cs[1..], id, f);
    } else {
      ApplyAtAbsent(c.replies, id, f);
      ApplyAtSize(cs[1..], id, f);
    }
  }

  /** When `f` keeps every comment's replies, the size does not change. */
  lemma {:induction false} ApplyAtKeepsSize(cs: seq<Comment>, id: Id, f: Comment -> Comment)
    requires forall c: Comment :: f(c).replies == c.replies
    ensures Size(ApplyAt(cs, id, f)) == Size(cs)
    decreases cs
  {
    if cs != [] {
      var r := ApplyAt(cs, id, f);
      assert r[1..] == ApplyAt(cs[1..], id, f);
      ApplyAtKeepsSize(cs[0].replies, id, f);
      ApplyAtKeepsSize(cs[1..], id, f);
    }
  }

  /** Position by position, `a` lists the comments of `b` with the same ids,
      and every comment whose id is not `id` keeps all of its fields but
      possibly its replies. */
  predicate AlikeExceptAt(a: seq<Comment>, b: seq<Comment>, id: Id) {
    && |a| == |b|
    && forall k :: 0 <= k < |a| ==>
         a[k].id == b[k].id && (b[k].id != id ==> a[k].(replies := b[k].replies) == b[k])
  }

  lemma AlikeExceptAtAppend(a1: seq<Comment>, b1: seq<Comment>, a2: seq<Comment>, b2: seq<Comment>, id: Id)
    requires AlikeExceptAt(a1, b1, id) && AlikeExceptAt(a2, b2, id)
    ensures AlikeExceptAt(a1 + a2, b1 + b2, id)
  {
    forall k | 0 <= k < |a1 + a2|
      ensures (a1 + a2)[k].id == (b1 + b2)[k].id
      ensures (b1 + b2)[k].id != id ==> (a1 + a2)[k].(replies := (b1 + b2)[k].replies) == (b1 + b2)[k]
    {
      if k < |a1| {
        assert (a1 + a2)[k] == a1[k] && (b1 + b2)[k] == b1[k];
      } else {
        assert (a1 + a2)[k] == a2[k - |a1|] && (b1 + b2)[k] == b2[k - |b1|];
      }
    }
  }

  /** When `f` keeps the id and the replies of the comment it rewrites, the
      pre-order listing afterwards matches the one before position by
      position, and only comments with the id may differ beyond their
      replies: every other subtree, at any depth, keeps its comments. */
  lemma {:induction false} ApplyAtKeepsOthers(cs: seq<Comment>, id: Id, f: Comment -> Comment)
    requires forall c: Comment :: c.id == id ==> f(c).id == id && f(c).replies == c.replies
    ensures AlikeExceptAt(Preorder(ApplyAt(cs, id, f)), Preorder(cs), id)
    decreases cs
  {
    if cs != [] {
      var r := ApplyAt(cs, id, f);
      var c := cs[0];
      assert r[1..] == ApplyAt(cs[1..], id, f);
      if c.id == id {
        assert r[0] == f(c) && r[0].replies == c.replies;
        assert AlikeExceptAt([r[0]], [c], id);
        assert AlikeExceptAt(Preorder(r[0].replies), Preorder(c.replies), id);
      } else if |c.replies| > 0 {
        assert r[0] == c.(replies := ApplyAt(c.replies, id, f));
        assert AlikeExceptAt([r[0]], [c], id);
        ApplyAtKeepsOthers(c.replies, id, f);
      } else {
        assert r[0] == c;
        assert AlikeExceptAt([r[0]], [c], id);
        assert AlikeExceptAt(Preorder(r[0].replies), Preorder(c.replies), id);
      }
      ApplyAtKeepsOthers(cs[1..], id, f);
      AlikeExceptAtAppend([r[0]], [c], Preorder(r[0].replies), Preorder(c.replies), id);
      AlikeExceptAtAppend([r[0]] + Preorder(r[0].replies), [c] + Preorder(c.replies),
                          Preorder(r[1..]), Preorder(cs[1..]), id);
    }
  }

  /** Forests alike position by position list the same ids. */
  lemma AlikeSameIds(a: seq<Comment>, b: seq<Comment>, id: Id)
    requires AlikeExceptAt(Preorder(a), Preorder(b), id)
    ensures Ids(a) == Ids(b)
  {
    IdsOfPreorder(a);
    IdsOfPreorder(b);
  }

  /** A forest with unique ids: the head's id, its replies' ids and its
      siblings' ids are three disjoint sets, each without repetition. */
  lemma UniqueSplit(cs: seq<Comment>)
    requires cs != [] && NoDuplicates(Ids(cs))
    ensures NoDuplicates(Ids(cs[0].replies)) && NoDuplicates(Ids(cs[1..]))
    ensures cs[0].id !in Ids(cs[0].replies) && cs[0].id !in Ids(cs[1..])
    ensures Disjoint(Ids(cs[0].replies), Ids(cs[1..]))
  {
    NoDuplicatesCons(cs[0].id, Ids(cs[0].replies), Ids(cs[1..]));
  }

  /** No element of `a` occurs in `b`. */
  predicate Disjoint<T(==)>(a: seq<T>, b: seq<T>) {
    forall x :: x in a ==> x !in b
  }

  lemma NoDuplicatesCons<T>(x: T, a: seq<T>, b: seq<T>)
    requires NoDuplicates([x] + a + b)
    ensures x !in a && x !in b
    ensures NoDuplicates(a) && NoDuplicates(b) && Disjoint(a, b)
  {
    var s := [x] + a + b;
    assert s[0] == x && s[1..] == a + b;
    NoDuplicatesSplit(a, b);
  }

  lemma {:induction false} NoDuplicatesSplit<T>(a: seq<T>, b: seq<T>)
    requires NoDuplicates(a + b)
    ensures NoDuplicates(a) && NoDuplicates(b) && Disjoint(a, b)
  {
    if a != [] {
      assert (a + b)[1..] == a[1..] + b;
      NoDuplicatesSplit(a[1..], b);
      assert a[0] !in a[1..] + b;
    } else {
      assert a + b == b;
    }
  }

  /** `{ ...comment, ...updated }`. */
  function Merge(c: Comment, p: Patch): (r: Comment)
    ensures p.id.Some? ==> r.id == p.id.value
    ensures p.content.Some? ==> r.content == p.content.value
    ensures p.replies.Some? ==> r.replies == p.replies.value
    ensures p == Patch(None, None, None, None, None, None) ==> r == c
    ensures p.replies.None? ==> r.replies == c.replies
  {
    Comment(p.id.GetOr(c.id), p.content.GetOr(c.content), p.user.GetOr(c.user),
            p.createdAt.GetOr(c.createdAt), p.updatedAt.GetOr(c.updatedAt), p.replies.GetOr(c.replies))
  }

  /** `updateCommentInList`. */
  function UpdateCommentInList(cs: seq<Comment>, id: Id, p: Patch): (r: seq<Comment>)
    ensures |r| == |cs|
  {
    ApplyAt(cs, id, (c: Comment) => Merge(c, p))
  }

  /** A matched comment takes every field the answer carries; its own
      subtree is not searched further. The list keeps its length and a
      forest without the id is left as it is. */
  lemma UpdateMerges(cs: seq<Comment>, id: Id, p: Patch)
    ensures var r := UpdateCommentInList(cs, id, p);
      && |r| == |cs|
      && (forall k :: 0 <= k < |cs| && cs[k].id == id ==> r[k] == Merge(cs[k], p))
      && (id !in Ids(cs) ==> r == cs)
  {
    if id !in Ids(cs) {
      ApplyAtAbsent(cs, id, c => Merge(c, p));
    }
  }

  /** After an edit that keeps the id, the comment found under the id is the
      merge of the comment found there before. */
  lemma FindAfterUpdate(cs: seq<Comment>, id: Id, p: Patch)
    requires id in Ids(cs) && (p.id.None? || p.id == Some(id))
    ensures Find(UpdateCommentInList(cs, id, p), id) == Some(Merge(Find(cs, id).value, p))
  {
    FindAfterApplyAt(cs, id, (c: Comment) => Merge(c, p));
  }

  /** An answer without `replies` that keeps the id changes no other
      comment: the forest lists the same ids in pre-order, and every
      comment there without the id, top-level or nested, keeps its id,
      content, author and timestamps. */
  lemma UpdateKeepsOthers(cs: seq<Comment>, id: Id, p: Patch)
    requires p.replies.None? && (p.id.None? || p.id == Some(id))
    ensures var r := UpdateCommentInList(cs, id, p);
      && Ids(r) == Ids(cs)
      && |Preorder(r)| == |Preorder(cs)|
      && forall k :: 0 <= k < |Preorder(cs)| && Preorder(cs)[k].id != id ==>
           var a, b := Preorder(r)[k], Preorder(cs)[k];
           a.id == b.id && a.content == b.content && a.user == b.user
           && a.createdAt == b.createdAt && a.updatedAt == b.updatedAt
  {
    var f := (c: Comment) => Merge(c, p);
    ApplyAtKeepsOthers(cs, id, f);
    var r := UpdateCommentInList(cs, id, p);
    AlikeSameIds(r, cs, id);
  }

  /** An answer without `replies` keeps the size of the forest. */
  lemma UpdateKeepsSize(cs: seq<Comment>, id: Id, p: Patch)
    requires p.replies.None?
    ensures Size(UpdateCommentInList(cs, id, p)) == Size(cs)
  {
    ApplyAtKeepsSize(cs, id, c => Merge(c, p));
  }

  /** `addReplyToComment`: `[newReply, ...(comment.replies || [])]` on the
      matching parent. */
  function AddReplyToComment(cs: seq<Comment>, parentId: Id, reply: Comment): (r: seq<Comment>)
    ensures |r| == |cs|
  {
    ApplyAt(cs, parentId, (c: Comment) => c.(replies := [reply] + c.replies))
  }

  /** The parent found afterwards holds the new reply first, before its old
      replies; a forest without the parent is unchanged. */
  lemma AddReplyPrepends(cs: seq<Comment>, parentId: Id, reply: Comment)
    ensures parentId in Ids(cs) ==>
      var before := Find(cs, parentId).value;
      Find(AddReplyToComment(cs, parentId, reply), parentId) == Some(before.(replies := [reply] + before.replies))
    ensures parentId !in Ids(cs) ==> AddReplyToComment(cs, parentId, reply) == cs
  {
    var f := (c: Comment) => c.(replies := [reply] + c.replies);
    if parentId in Ids(cs) {
      FindAfterApplyAt(cs, parentId, f);
    } else {
      ApplyAtAbsent(cs, parentId, f);
    }
  }

  /** With unique ids the forest grows by the reply's own size. */
  lemma AddReplySize(cs: seq<Comment>, parentId: Id, reply: Comment)
    requires NoDuplicates(Ids(cs)) && parentId in Ids(cs)
    ensures Size(AddReplyToComment(cs, parentId, reply)) == Size(cs) + Size([reply])
  {
    var f := (c: Comment) => c.(replies := [reply] + c.replies);
    ApplyAtSize(cs, parentId, f);
    var p := Find(cs, parentId).value;
    SizeAppend([reply], p.replies);
  }

  /** `removeCommentFromList`: `filter` out every comment with the id, and
      replace the non-empty replies of the others by their filtered forest. */
  function RemoveCommentFromList(cs: seq<Comment>, id: Id): (r: seq<Comment>)
    ensures id !in Ids(r)
    ensures |r| <= |cs|
    decreases cs
  {
    if cs == [] then []
    else if cs[0].id == id then RemoveCommentFromList(cs[1..], id)
    else
      var c := cs[0];
      var c' := if |c.replies| > 0 then c.(replies := RemoveCommentFromList(c.replies, id)) else c;
      [c'] + RemoveCommentFromList(cs[1..], id)
  }

  lemma {:induction false} RemoveAbsent(cs: seq<Comment>, id: Id)
    requires id !in Ids(cs)
    ensures RemoveCommentFromList(cs, id) == cs
    decreases cs
  {
    if cs != [] {
      RemoveAbsent(cs[0].replies, id);
      RemoveAbsent(cs[1..], id);
    }
  }

  /** `a` is `b` with some elements left out. */
  predicate Subsequence<T(==)>(a: seq<T>, b: seq<T>)
    decreases |b|
  {
    a == [] || (b != [] && ((a[0] == b[0] && Subsequence(a[1..], b[1..])) || Subsequence(a, b[1..])))
  }

  lemma {:induction false} SubsequenceRefl<T>(a: seq<T>)
    ensures Subsequence(a, a)
  {
    if a != [] {
      SubsequenceRefl(a[1..]);
    }
  }

  lemma {:induction false} SubsequenceExtend<T>(a: seq<T>, b: seq<T>, c: seq<T>)
    requires Subsequence(a, b)
    ensures Subsequence(a, c + b)
  {
    if c == [] {
      assert c + b == b;
    } else if a != [] {
      SubsequenceExtend(a, b, c[1..]);
      assert (c + b)[1..] == c[1..] + b;
    }
  }

  lemma {:induction false} SubsequenceConcat<T>(a1: seq<T>, b1: seq<T>, a2: seq<T>, b2: seq<T>)
    requires Subsequence(a1, b1) && Subsequence(a2, b2)
    ensures Subsequence(a1 + a2, b1 + b2)
    decreases |b1|
  {
    if a1 == [] {
      assert a1 + a2 == a2;
      SubsequenceExtend(a2, b2, b1);
    } else {
      assert (b1 + b2)[1..] == b1[1..] + b2;
      if a1[0] == b1[0] && Subsequence(a1[1..], b1[1..]) {
        SubsequenceConcat(a1[1..], b1[1..], a2, b2);
        assert (a1 + a2)[1..] == a1[1..] + a2;
      } else {
        SubsequenceConcat(a1, b1[1..], a2, b2);
      }
    }
  }

  /** The comments that remain keep their relative pre-order. */
  lemma {:induction false} RemoveKeepsOrder(cs: seq<Comment>, id: Id)
    ensures Subsequence(Ids(RemoveCommentFromList(cs, id)), Ids(cs))
    decreases cs
  {
    if cs == [] {
    } else {
      var c := cs[0];
      RemoveKeepsOrder(cs[1..], id);
      var rest := RemoveCommentFromList(cs[1..], id);
      if c.id == id {
        SubsequenceExtend(Ids(rest), Ids(cs[1..]), [c.id] + Ids(c.replies));
        assert Ids(cs) == ([c.id] + Ids(c.replies)) + Ids(cs[1..]);
      } else {
        var kids := if |c.replies| > 0 then RemoveCommentFromList(c.replies, id) else c.replies;
        if |c.replies| > 0 {
          RemoveKeepsOrder(c.replies, id);
        } else {
          SubsequenceRefl(Ids(c.replies));
        }
        SubsequenceRefl([c.id]);
        SubsequenceConcat([c.id], [c.id], Ids(kids), Ids(c.replies));
        SubsequenceConcat([c.id] + Ids(kids), [c.id] + Ids(c.replies), Ids(rest), Ids(cs[1..]));
        var r := RemoveCommentFromList(cs, id);
        assert r[0] == c.(replies := kids) && r[1..] == rest;
        assert Ids(r) == ([c.id] + Ids(kids)) + Ids(rest);
        assert Ids(cs) == ([c.id] + Ids(c.replies)) + Ids(cs[1..]);
      }
    }
  }

  /** With unique ids, removal takes away exactly the removed comment's
      subtree: the count `handleDeleteComment` subtracts. */
  lemma {:induction false} RemoveSize(cs: seq<Comment>, id: Id)
    requires NoDuplicates(Ids(cs)) && id in Ids(cs)
    ensures Size(RemoveCommentFromList(cs, id)) == Size(cs) - Size([Find(cs, id).value])
    decreases cs
  {
    var c := cs[0];
    UniqueSplit(cs);
    if c.id == id {
      RemoveAbsent(cs[1..], id);
    } else if id in Ids(c.replies) {
      RemoveSize(c.replies, id);
      RemoveAbsent(cs[1..], id);
    } else {
      RemoveAbsent(c.replies, id);
      RemoveSize(cs[1..], id);
    }
  }

  /** The section's state: the forest on screen and the displayed count.
      The lemmas below that assume unique ids rely on where the forest comes
      from: the server's listing places each stored comment only under its
      own parent, one level down (CommentController.GetCommentsShape), so no
      id is listed twice, and every comment or reply added afterwards
      carries the fresh id the server gave it. Nothing in the client itself
      enforces this. */
  datatype Section = Section(comments: seq<Comment>, commentCount: int)

  /** The displayed count agrees with the forest on screen. */
  predicate InSync(s: Section) {
    s.commentCount == Size(s.comments)
  }

  /** `fetchComments` on success: the listing, counted. */
  method Fetched(list: seq<Comment>) returns (s: Section)
    ensures s.comments == list && InSync(s)
  {
    var count := CountAllComments(list);
    s := Section(list, count);
  }

  /** `handleAddComment`: nothing for a blank draft; otherwise, when the
      server answers with the new comment, it goes first and the count
      grows by one. */
  function HandleAddComment(s: Section, draft: string, answer: Option<Comment>): (r: Section)
    ensures Trim(draft) == [] || answer.None? ==> r == s
    ensures Trim(draft) != [] && answer.Some? ==>
      r.comments == [answer.value] + s.comments && r.commentCount == s.commentCount + 1
  {
    if Trim(draft) == [] then s
    else if answer.None? then s
    else Section([answer.value] + s.comments, s.commentCount + 1)
  }

  /** A new comment has no replies, so adding it keeps the count in sync. */
  lemma AddKeepsSync(s: Section, draft: string, c: Comment)
    requires InSync(s) && c.replies == []
    ensures InSync(HandleAddComment(s, draft, Some(c)))
  {
    SizeAppend([c], s.comments);
  }

  /** `handleEditComment`: merge the answer into the matching comment. */
  function HandleEditComment(s: Section, id: Id, answer: Option<Patch>): (r: Section)
    ensures r.commentCount == s.commentCount
    ensures answer.None? ==> r == s
  {
    if answer.None? then s else s.(comments := UpdateCommentInList(s.comments, id, answer.value))
  }

  lemma EditKeepsSync(s: Section, id: Id, p: Patch)
    requires InSync(s) && p.replies.None?
    ensures InSync(HandleEditComment(s, id, Some(p)))
  {
    UpdateKeepsSize(s.comments, id, p);
  }

  /** `handleDeleteComment`: after a successful delete, subtract the size of
      the comment's subtree (1 when it is not on screen) and filter it out. */
  function HandleDeleteComment(s: Section, id: Id, deleted: bool): (r: Section)
    ensures !deleted ==> r == s
    ensures deleted ==> id !in Ids(r.comments)
    ensures deleted && id !in Ids(s.comments) ==> r == Section(s.comments, s.commentCount - 1)
  {
    if !deleted then s
    else
      var target := Find(s.comments, id);
      var deletedCount := if target.Some? then Size([target.value]) else 1;
      if target.None? then RemoveAbsent(s.comments, id); Section(s.comments, s.commentCount - deletedCount)
      else Section(RemoveCommentFromList(s.comments, id), s.commentCount - deletedCount)
  }

  /** Deleting a comment on screen keeps the count in sync when ids are
      unique. */
  lemma DeleteKeepsSync(s: Section, id: Id)
    requires InSync(s) && NoDuplicates(Ids(s.comments)) && id in Ids(s.comments)
    ensures InSync(HandleDeleteComment(s, id, true))
  {
    RemoveSize(s.comments, id);
  }

  /** `handleReplyToComment`: on success the reply is prepended to its
      parent's replies and the count grows by one. */
  function HandleReplyToComment(s: Section, parentId: Id, answer: Option<Comment>): (r: Section)
    ensures answer.None? ==> r == s
    ensures answer.Some? ==> r.commentCount == s.commentCount + 1
    ensures answer.Some? && parentId !in Ids(s.comments) ==> r.comments == s.comments
  {
    if answer.None? then s
    else
      AddReplyPrepends(s.comments, parentId, answer.value);
      Section(AddReplyToComment(s.comments, parentId, answer.value), s.commentCount + 1)
  }

  lemma ReplyKeepsSync(s: Section, parentId: Id, reply: Comment)
    requires InSync(s) && NoDuplicates(Ids(s.comments)) && parentId in Ids(s.comments) && reply.replies == []
    ensures InSync(HandleReplyToComment(s, parentId, Some(reply)))
  {
    AddReplySize(s.comments, parentId, reply);
  }
}
