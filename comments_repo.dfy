/** The Comment table's repository, with the cursor-paged listing of a
    work's comments. */
module CommentsRepo {
  import opened Common
  import opened Seqs
  import opened Database
  import Ordering

  /** `orderBy: { createdAt: 'desc' }` */
  function NewerFirst(a: Comment, b: Comment): bool {
    a.createdAt >= b.createdAt
  }

  lemma NewerFirstIsPreorder()
    ensures Ordering.Total(NewerFirst) && Ordering.Transitive(NewerFirst)
  {
  }

  /** All comments of a work, newest first: the listing before the cursor
      and `take` apply. */
  function CommentsOfWork(cs: seq<Comment>, workId: int): (r: seq<Comment>)
    ensures Ordering.Sorted(r, NewerFirst)
    ensures forall c :: c in r <==> c in cs && c.workId == workId
  {
    var matching := Filter(cs, (c: Comment) => c.workId == workId);
    NewerFirstIsPreorder();
    Ordering.SortSorted(matching, NewerFirst);
    Ordering.SortMembers(matching, NewerFirst);
    var r := Ordering.Sort(matching, NewerFirst);
    r
  }

  /** The position of the first row with that id. */
  function IndexOfId(s: seq<Comment>, id: int): (r: Option<nat>)
    ensures r.Some? ==> r.value < |s| && s[r.value].id == id
    ensures r.Some? ==> forall k :: 0 <= k < r.value ==> s[k].id != id
    ensures r.None? <==> forall k :: 0 <= k < |s| ==> s[k].id != id
  {
    if s == [] then None
    else if s[0].id == id then Some(0)
    else match IndexOfId(s[1..], id)
      case None => None
      case Some(k) => Some(k + 1)
  }

  /** JavaScript truthiness of `cursorId`: absent (null) and 0 mean no
      cursor. */
  function CursorOf(cursorId: Option<int>): (r: Option<int>)
    ensures r.Some? <==> cursorId.Some? && cursorId.value != 0
    ensures r.Some? ==> r == cursorId
  {
    if cursorId.Some? && cursorId.value != 0 then cursorId else None
  }

  /** Where the page starts in the ordered listing: at the top without a
      cursor, right after the cursor row with one (`cursor` plus
      `skip: 1`), nowhere when the cursor row is not in the listing. */
  function StartOf(ordered: seq<Comment>, cursorId: Option<int>): (r: Option<nat>)
    ensures CursorOf(cursorId).None? ==> r == Some(0)
    ensures CursorOf(cursorId).Some? ==>
              match IndexOfId(ordered, cursorId.value)
              case None => r.None?
              case Some(p) => r == Some(p + 1)
  {
    match CursorOf(cursorId)
    case None => Some(0)
    case Some(cursor) =>
      match IndexOfId(ordered, cursor)
      case None => None
      case Some(p) => Some(p + 1)
  }

  datatype CommentPage = CommentPage(list: seq<Comment>, nextCursor: Option<int>)

  function LimitOf(limit: Option<int>): int {
    if limit.Some? then limit.value else 10
  }

  /** The rows `findMany` returns: `take` rows of the ordered listing from
      `start` on, none when the cursor row was not found. */
  function PageFrom(ordered: seq<Comment>, start: Option<nat>, take: nat): (r: seq<Comment>)
    ensures |r| <= take
    ensures start.None? ==> r == []
    ensures start.Some? ==> |r| == if start.value >= |ordered| then 0 else Min(take, |ordered| - start.value)
    ensures start.Some? ==> forall i :: 0 <= i < |r| ==> start.value + i < |ordered| && r[i] == ordered[start.value + i]
    ensures forall c :: c in r ==> c in ordered
    ensures Ordering.Sorted(ordered, NewerFirst) ==> Ordering.Sorted(r, NewerFirst)
  {
    match start
    case None => []
    case Some(k) =>
      var r := Page(ordered, k, take);
      assert forall i, j :: 0 <= i < j < |r| ==> r[i] == ordered[k + i] && r[j] == ordered[k + j];
      r
  }

  /** `getCommentsListByWorkId`: at most `limit` comments of the work,
      newest first, starting after the cursor comment; `nextCursor` is the
      id of the last one exactly when the page is full. A zero limit
      fails: the empty page is "full" and its last element does not exist.
      A negative limit is refused. */
  function GetCommentsListByWorkId(cs: seq<Comment>, workId: int, limit: Option<int>, cursorId: Option<int>)
    : (r: Result<CommentPage>)
    ensures r.Err? <==> LimitOf(limit) <= 0
    ensures r.Err? ==> r.error == Internal
    ensures r.Ok? ==> |r.value.list| <= LimitOf(limit)
    ensures r.Ok? ==> forall c :: c in r.value.list ==> c in cs && c.workId == workId
    ensures r.Ok? ==> forall i, j :: 0 <= i < j < |r.value.list| ==>
              r.value.list[i].createdAt >= r.value.list[j].createdAt
    ensures r.Ok? ==> r.value.list == PageFrom(CommentsOfWork(cs, workId), StartOf(CommentsOfWork(cs, workId), cursorId), LimitOf(limit))
    ensures r.Ok? ==> (r.value.nextCursor.Some? <==> |r.value.list| == LimitOf(limit))
    ensures r.Ok? && r.value.nextCursor.Some? ==>
              r.value.nextCursor.value == r.value.list[|r.value.list| - 1].id
  {
    var take := LimitOf(limit);
    if take < 0 then Err(Internal)
    else
      var ordered := CommentsOfWork(cs, workId);
      var commentsList := PageFrom(ordered, StartOf(ordered, cursorId), take);
      assert forall i, j :: 0 <= i < j < |commentsList| ==> NewerFirst(commentsList[i], commentsList[j]);
      if |commentsList| == take then
        if take == 0 then Err(Internal)
        else Ok(CommentPage(commentsList, Some(commentsList[|commentsList| - 1].id)))
      else Ok(CommentPage(commentsList, None))
  }

  /** The listing of a work keeps the table's primary key. */
  lemma CommentsOfWorkKeysUnique(cs: seq<Comment>, workId: int)
    requires KeysUnique(cs, CommentKey)
    ensures KeysUnique(CommentsOfWork(cs, workId), CommentKey)
  {
    var matching := Filter(cs, (c: Comment) => c.workId == workId);
    FilterKeysUnique(cs, (c: Comment) => c.workId == workId, CommentKey);
    PermutationKeysUnique(matching, Ordering.Sort(matching, NewerFirst), CommentKey);
  }

  /** With unique ids, the page after a cursor never contains the cursor
      row. */
  lemma PageAfterCursorExcludesIt(ordered: seq<Comment>, cursor: int, take: nat)
    requires KeysUnique(ordered, CommentKey)
    requires cursor != 0
    ensures forall c :: c in PageFrom(ordered, StartOf(ordered, Some(cursor)), take) ==> c.id != cursor
  {
    var list := PageFrom(ordered, StartOf(ordered, Some(cursor)), take);
    var p := IndexOfId(ordered, cursor);
    if p.Some? {
      forall i | 0 <= i < |list| ensures list[i].id != cursor {
        assert list[i] == ordered[p.value + 1 + i];
        assert CommentKey(ordered[p.value]) != CommentKey(ordered[p.value + 1 + i]);
      }
    }
  }

  /** A page fetched after a cursor comment does not repeat it. */
  lemma CursorExcluded(cs: seq<Comment>, workId: int, limit: Option<int>, cursor: int)
    requires KeysUnique(cs, CommentKey)
    requires cursor != 0
    requires GetCommentsListByWorkId(cs, workId, limit, Some(cursor)).Ok?
    ensures forall c :: c in GetCommentsListByWorkId(cs, workId, limit, Some(cursor)).value.list ==> c.id != cursor
  {
    CommentsOfWorkKeysUnique(cs, workId);
    PageAfterCursorExcludesIt(CommentsOfWork(cs, workId), cursor, LimitOf(limit));
  }

  // ---- writes ----

  /** `createComment`: a new comment with the next id by the user on the
      work. */
  method CreateComment(db: Db, workId: int, userId: int, content: string, now: int) returns (c: Comment)
    requires db.Valid()
    modifies db
    ensures db.Valid()
    ensures c == Comment(old(db.nextCommentId), workId, userId, content, now)
    ensures db.comments == old(db.comments) + [c]
    ensures db.nextCommentId == old(db.nextCommentId) + 1
    ensures db.challenges == old(db.challenges) && db.works == old(db.works)
    ensures db.likes == old(db.likes) && db.applications == old(db.applications)
    ensures db.nextChallengeId == old(db.nextChallengeId) && db.nextWorkId == old(db.nextWorkId)
  {
    c := Comment(db.nextCommentId, workId, userId, content, now);
    db.comments := db.comments + [c];
    db.nextCommentId := db.nextCommentId + 1;
  }

  function WithCommentContent(cs: seq<Comment>, commentId: int, content: string): (r: seq<Comment>)
    ensures |r| == |cs|
    ensures forall i :: 0 <= i < |cs| ==> r[i] == if cs[i].id == commentId then cs[i].(content := content) else cs[i]
  {
    seq(|cs|, i requires 0 <= i < |cs| => if cs[i].id == commentId then cs[i].(content := content) else cs[i])
  }

  /** `updateComment` with `data: { content }`: only that comment's content
      changes. */
  method UpdateComment(db: Db, commentId: int, content: string) returns (r: Result<Comment>)
    requires db.Valid()
    modifies db
    ensures db.Valid()
    ensures r == (match FindComment(old(db.comments), commentId)
                  case None => Err(Internal)
                  case Some(c) => Ok(c.(content := content)))
    ensures db.comments == WithCommentContent(old(db.comments), commentId, content)
    ensures db.challenges == old(db.challenges) && db.works == old(db.works)
    ensures db.likes == old(db.likes) && db.applications == old(db.applications)
    ensures db.nextChallengeId == old(db.nextChallengeId) && db.nextWorkId == old(db.nextWorkId)
    ensures db.nextCommentId == old(db.nextCommentId)
  {
    var found := FindComment(db.comments, commentId);
    var before := db.comments;
    db.comments := WithCommentContent(db.comments, commentId, content);
    forall x | x in db.comments ensures CommentKey(x) < db.nextCommentId {
      var i :| 0 <= i < |db.comments| && db.comments[i] == x;
      assert before[i] in before;
    }
    if found.None? {
      return Err(Internal);
    }
    r := Ok(found.value.(content := content));
  }

  /** `deleteComment`: removes that comment only. */
  method DeleteComment(db: Db, commentId: int) returns (r: Result<Comment>)
    requires db.Valid()
    modifies db
    ensures db.Valid()
    ensures r == (match FindComment(old(db.comments), commentId)
                  case None => Err(Internal)
                  case Some(c) => Ok(c))
    ensures forall c :: c in db.comments <==> c in old(db.comments) && c.id != commentId
    ensures db.comments == Filter(old(db.comments), (c: Comment) => c.id != commentId)
    ensures db.challenges == old(db.challenges) && db.works == old(db.works)
    ensures db.likes == old(db.likes) && db.applications == old(db.applications)
    ensures db.nextChallengeId == old(db.nextChallengeId) && db.nextWorkId == old(db.nextWorkId)
    ensures db.nextCommentId == old(db.nextCommentId)
  {
    var found := FindComment(db.comments, commentId);
    var p := (c: Comment) => c.id != commentId;
    FilterKeysUnique(db.comments, p, CommentKey);
    db.comments := Filter(db.comments, p);
    if found.None? {
      return Err(Internal);
    }
    r := Ok(found.value);
  }
}
