/** frontend/src/pages/RoadmapApp/components/CommentComponent.jsx: what one
    rendered comment offers (edit, reply, the replies toggle), how its age
    is written, and how far it is indented at its nesting depth. */
module CommentComponent {
  import opened Common
  import opened CommentsSection
  import CommentModel
  import Database
  import CommentController

  /** The component's `maxDepth`. */
  const MaxRenderDepth: nat := 3

  /** `canEdit`: a signed-in user who wrote the comment. */
  predicate CanEdit(currentUser: Option<Id>, c: Comment): (b: bool)
    ensures b <==> currentUser == Some(c.user)
  {
    currentUser.Some? && currentUser.value == c.user
  }

  /** The edit and delete buttons show exactly when the server would accept
      the request: on a listed (so live) comment, authorship is the whole of
      the ownership filter of editComment and deleteComment. */
  lemma CanEditMatchesServer(docs: map<Id, CommentModel.Comment>, c: Comment, currentUser: Option<Id>)
    requires c.id in docs && !docs[c.id].isDeleted && docs[c.id].user == c.user
    ensures CanEdit(currentUser, c) <==> currentUser.Some? && CommentController.Owned(docs, c.id, currentUser.value)
  {
  }

  /** `canReply`, as written: any comment rendered above depth 3, for a
      signed-in user. */
  predicate CanReply(depth: nat, currentUser: Option<Id>): (b: bool)
    ensures b <==> currentUser.Some? && depth <= CommentModel.MaxDepth
  {
    depth < MaxRenderDepth && currentUser.Some?
  }

  /** The reply box is offered on a comment at depth 2, and the server
      refuses every reply to such a comment because the reply's depth
      would be 3. */
  lemma ReplyOfferedButRefused(db: Database.Db, isObjectId: Id -> bool, itemId: Id, userId: Id,
                               content: Option<string>, parentId: Id, newId: Id, now: int)
    requires db.WellFormed() && newId !in db.comments.docs
    requires isObjectId(itemId) && itemId in db.items.docs
    requires isObjectId(parentId) && parentId != "" && parentId in db.comments.docs
    requires db.comments.docs[parentId].depth == CommentModel.MaxDepth
    ensures CanReply(db.comments.docs[parentId].depth, Some(userId))
    ensures CommentController.AddComment(db, isObjectId, itemId, userId, content, Some(parentId), newId, now)
         == Database.Response(db, BadRequest(CommentController.DepthExceeded))
  {
  }

  /** `canReply` as the server's depth bound implies: only below depth 2. */
  predicate CanReplyBelowMax(depth: nat, currentUser: Option<Id>) {
    depth < CommentModel.MaxDepth && currentUser.Some?
  }

  /** For a signed-in user, the corrected reply button shows on a comment
      exactly when the server does not refuse the reply for its depth. */
  lemma CanReplyBelowMaxAgrees(db: Database.Db, isObjectId: Id -> bool, itemId: Id, userId: Id,
                               content: Option<string>, parentId: Id, newId: Id, now: int)
    requires db.WellFormed() && newId !in db.comments.docs
    requires isObjectId(itemId) && itemId in db.items.docs
    requires isObjectId(parentId) && parentId != "" && parentId in db.comments.docs
    requires db.comments.docs[parentId].depth >= 0
    ensures CanReplyBelowMax(db.comments.docs[parentId].depth, Some(userId))
        <==> CommentController.AddComment(db, isObjectId, itemId, userId, content, Some(parentId), newId, now).out
             != BadRequest(CommentController.DepthExceeded)
  {
    var d := db.comments.docs[parentId].depth;
    if d + 1 <= CommentModel.MaxDepth {
      CommentController.AddCommentReplyPath(db, isObjectId, itemId, userId, content, parentId, newId, now);
      var s := CommentController.StoreComment(db, itemId, userId, content, Some(parentId), d + 1, newId, now);
      assert !s.out.BadRequest?;
    }
  }

  /** `hasReplies`. */
  predicate HasReplies(c: Comment): (b: bool)
    ensures b <==> c.replies != []
  {
    |c.replies| > 0
  }

  /** The replies toggle shows exactly on a comment with descendants. */
  lemma HasRepliesIffDescendants(c: Comment)
    ensures HasReplies(c) <==> Size([c]) > 1
  {
    assert [c][1..] == [];
    if HasReplies(c) {
      assert Size(c.replies) >= 1;
    }
  }

  // ------------------------------------------------------------ formatDate

  const MinuteMs: int := 1000 * 60
  const HourMs: int := 1000 * 60 * 60

  /** The buckets of `formatDate`. */
  datatype Age = JustNow | MinutesAgo(minutes: nat) | HoursAgo(hours: nat) | DaysAgo(days: nat) | OnDate

  /** The bucket `formatDate` picks for a comment `elapsed` milliseconds
      old. `Math.floor` of a quotient by a positive constant is Dafny's
      `/`, for negative ages too. */
  function AgeOf(elapsed: int): (a: Age)
    ensures elapsed < 60000 ==> a == JustNow
    ensures 60000 <= elapsed < 3600000 ==>
      a.MinutesAgo? && 1 <= a.minutes < 60 && a.minutes * 60000 <= elapsed < (a.minutes + 1) * 60000
    ensures 3600000 <= elapsed < 86400000 ==>
      a.HoursAgo? && 1 <= a.hours < 24 && a.hours * 3600000 <= elapsed < (a.hours + 1) * 3600000
    ensures 86400000 <= elapsed < 604800000 ==>
      a.DaysAgo? && 1 <= a.days < 7 && a.days * 86400000 <= elapsed < (a.days + 1) * 86400000
    ensures 604800000 <= elapsed ==> a == OnDate
  {
    var diffInHours := elapsed / HourMs;
    if diffInHours < 1 then
      var diffInMinutes := elapsed / MinuteMs;
      if diffInMinutes < 1 then JustNow else MinutesAgo(diffInMinutes)
    else if diffInHours < 24 then HoursAgo(diffInHours)
    else
      var diffInDays := diffInHours / 24;
      if diffInDays < 7 then DaysAgo(diffInDays) else OnDate
  }

  /** The rank of a bucket: older comments never get a younger bucket. */
  function AgeRank(a: Age): int {
    match a
    case JustNow => 0
    case MinutesAgo(m) => 60000 * m
    case HoursAgo(h) => 3600000 * h
    case DaysAgo(d) => 86400000 * d
    case OnDate => 604800000
  }

  /** An older comment is never labelled younger. */
  lemma AgeMonotone(e1: int, e2: int)
    requires e1 <= e2
    ensures AgeRank(AgeOf(e1)) <= AgeRank(AgeOf(e2))
  {
  }

  /** The text of a bucket; `localeDate` is `date.toLocaleDateString()`. */
  function AgeText(a: Age, localeDate: string): string {
    match a
    case JustNow => "Just now"
    case MinutesAgo(m) => Label(m, 'm')
    case HoursAgo(h) => Label(h, 'h')
    case DaysAgo(d) => Label(d, 'd')
    case OnDate => localeDate
  }

  /** `formatDate(comment.createdAt)` at a time `elapsed` milliseconds
      later. */
  function FormatDate(elapsed: int, localeDate: string): (s: string)
    ensures elapsed < 60000 ==> s == "Just now"
    ensures elapsed >= 604800000 ==> s == localeDate
  {
    AgeText(AgeOf(elapsed), localeDate)
  }

  /** Every relative label names one bucket: two different relative ages
      are never written alike, so the number and unit can be read back. */
  lemma AgeTextDistinct(a: Age, b: Age, localeDate: string)
    requires !a.OnDate? && !b.OnDate? && a != b
    ensures AgeText(a, localeDate) != AgeText(b, localeDate)
  {
    if a.JustNow? || b.JustNow? {
      assert AgeText(a, localeDate)[0] != AgeText(b, localeDate)[0];
    } else {
      assert AgeText(a, localeDate) == Label(AgeNumber(a), AgeUnit(a));
      assert AgeText(b, localeDate) == Label(AgeNumber(b), AgeUnit(b));
      LabelsDistinct(AgeNumber(a), AgeUnit(a), AgeNumber(b), AgeUnit(b));
    }
  }

  /** A relative label, `${n}m ago` and the like: the number, the unit
      letter, " ago". */
  function Label(n: nat, unit: char): string {
    NatToString(n) + [unit] + " ago"
  }

  /** Labels with different numbers or units differ. */
  lemma LabelsDistinct(m: nat, u: char, n: nat, v: char)
    requires m != n || u != v
    ensures Label(m, u) != Label(n, v)
  {
    if |Label(m, u)| == |Label(n, v)| {
      if u != v {
        assert Label(m, u)[|NatToString(m)|] != Label(n, v)[|NatToString(n)|];
      } else {
        LabelNumber(m, u);
        LabelNumber(n, v);
      }
    }
  }

  /** The number can be read back from the front of a label. */
  lemma LabelNumber(n: nat, unit: char)
    ensures |Label(n, unit)| == |NatToString(n)| + 5
    ensures DigitsValue(Label(n, unit)[..|NatToString(n)|]) == n
  {
    assert Label(n, unit)[..|NatToString(n)|] == NatToString(n);
    NatToStringRoundTrip(n);
  }

  /** The unit letter of a relative label. */
  function AgeUnit(a: Age): char
    requires !a.JustNow? && !a.OnDate?
  {
    match a
    case MinutesAgo(_) => 'm'
    case HoursAgo(_) => 'h'
    case DaysAgo(_) => 'd'
  }

  function AgeNumber(a: Age): nat
    requires !a.JustNow? && !a.OnDate?
  {
    match a
    case MinutesAgo(m) => m
    case HoursAgo(h) => h
    case DaysAgo(d) => d
  }

  // ---------------------------------------------------------- indentation

  /** `getMarginClass`. */
  function MarginClass(depth: nat): (r: string)
    ensures |r| >= 4 && (depth == 0 <==> r[..3] != "ml-")
  {
    if depth == 0 then assert "mt-4"[1] != "ml-"[1]; "mt-4"
    else if depth == 1 then "ml-6 mt-3"
    else if depth == 2 then "ml-8 mt-3"
    else "ml-10 mt-3"
  }

  /** `getBorderClass`. */
  function BorderClass(depth: nat): (r: string)
    ensures |r| > 11 && r[..11] == "border-l-2 "
  {
    if depth == 0 then "border-l-2 border-slate-200"
    else if depth == 1 then "border-l-2 border-blue-200"
    else if depth == 2 then "border-l-2 border-green-200"
    else "border-l-2 border-purple-200"
  }

  /** The first three levels are told apart by both margin and border;
      every level from 3 on looks the same. */
  lemma IndentationLevels(d1: nat, d2: nat)
    ensures d1 != d2 && (d1 < MaxRenderDepth || d2 < MaxRenderDepth) ==>
      MarginClass(d1) != MarginClass(d2) && BorderClass(d1) != BorderClass(d2)
    ensures d1 >= MaxRenderDepth && d2 >= MaxRenderDepth ==>
      MarginClass(d1) == MarginClass(d2) && BorderClass(d1) == BorderClass(d2)
  {
    var ms := ["mt-4", "ml-6 mt-3", "ml-8 mt-3", "ml-10 mt-3"];
    var bs := ["border-l-2 border-slate-200", "border-l-2 border-blue-200",
               "border-l-2 border-green-200", "border-l-2 border-purple-200"];
    assert ms[0][1] != ms[1][1] && ms[0][1] != ms[2][1] && ms[0][1] != ms[3][1];
    assert ms[1][3] != ms[2][3] && ms[1][3] != ms[3][3] && ms[2][3] != ms[3][3];
    assert bs[0][18] != bs[1][18] && bs[0][18] != bs[2][18] && bs[0][18] != bs[3][18];
    assert bs[1][18] != bs[2][18] && bs[1][18] != bs[3][18] && bs[2][18] != bs[3][18];
  }

  // ------------------------------------------------------------- nesting

  /** The comments of a forest in render order, each with the `depth` it is
      rendered at: the section renders the top level at 0 and each
      comment renders its replies at `depth + 1`. */
  function Rendered(cs: seq<Comment>, depth: nat): (r: seq<(Comment, nat)>)
    ensures |r| == Size(cs)
    ensures forall k :: 0 <= k < |r| ==> depth <= r[k].1
    decreases cs
  {
    if cs == [] then []
    else [(cs[0], depth)] + Rendered(cs[0].replies, depth + 1) + Rendered(cs[1..], depth)
  }

  /** The number of levels of a forest. */
  function Height(cs: seq<Comment>): nat
    decreases cs
  {
    if cs == [] then 0
    else
      var down, across := 1 + Height(cs[0].replies), Height(cs[1..]);
      if down >= across then down else across
  }

  /** Every comment of the forest is rendered once, in pre-order, at a depth
      between the forest's own and the one its height allows. */
  lemma {:induction false} RenderedDepths(cs: seq<Comment>, depth: nat)
    ensures |Rendered(cs, depth)| == |Preorder(cs)|
    ensures forall k :: 0 <= k < |Preorder(cs)| ==>
      Rendered(cs, depth)[k].0 == Preorder(cs)[k]
      && depth <= Rendered(cs, depth)[k].1 < depth + Height(cs)
    decreases cs
  {
    if cs != [] {
      RenderedDepths(cs[0].replies, depth + 1);
      RenderedDepths(cs[1..], depth);
    }
  }
}
