/** The comment service. Only a comment's author may edit or delete it;
    unlike works, there is no exception for admins. */
module CommentsService {
  import opened Common
  import opened Seqs
  import opened Database
  import CommentsRepo

  /** `createComment`: NotFound when the work does not exist; otherwise a
      new comment by the user. */
  method CreateComment(db: Db, workId: int, userId: int, content: string, now: int) returns (r: Result<Comment>)
    requires db.Valid()
    modifies db
    ensures db.Valid()
    ensures r.Err? <==> FindWork(old(db.works), workId).None?
    ensures r.Err? ==> r.error == NotFound && db.comments == old(db.comments) && db.nextCommentId == old(db.nextCommentId)
    ensures r.Ok? ==> r.value == Comment(old(db.nextCommentId), workId, userId, content, now)
                      && db.comments == old(db.comments) + [r.value]
    ensures db.challenges == old(db.challenges) && db.works == old(db.works)
    ensures db.likes == old(db.likes) && db.applications == old(db.applications)
    ensures db.nextChallengeId == old(db.nextChallengeId) && db.nextWorkId == old(db.nextWorkId)
  {
    var work := FindWork(db.works, workId);
    if work.None? {
      return Err(NotFound);
    }
    var c := CommentsRepo.CreateComment(db, workId, userId, content, now);
    r := Ok(c);
  }

  /** `getWorkCommentsList`: NotFound when the work does not exist;
      otherwise one cursor page of its comments. */
  function GetWorkCommentsList(ws: seq<Work>, cs: seq<Comment>, workId: int, limit: Option<int>, cursorId: Option<int>)
    : (r: Result<CommentsRepo.CommentPage>)
    ensures FindWork(ws, workId).None? ==> r == Err(NotFound)
    ensures FindWork(ws, workId).Some? ==> r == CommentsRepo.GetCommentsListByWorkId(cs, workId, limit, cursorId)
    ensures r.Ok? ==> forall c :: c in r.value.list ==> c in cs && c.workId == workId
  {
    if FindWork(ws, workId).None? then Err(NotFound)
    else CommentsRepo.GetCommentsListByWorkId(cs, workId, limit, cursorId)
  }

  /** `getWorkCommentsList` as wired: the comment repository it imports
      puts `nickname` and `role` directly under `include.author`, which is
      not a valid `include` argument, so Prisma refuses the listing query
      once the work has been found. */
  function GetWorkCommentsListAsWritten(ws: seq<Work>, cs: seq<Comment>, workId: int, limit: Option<int>, cursorId: Option<int>)
    : (r: Result<CommentsRepo.CommentPage>)
    ensures FindWork(ws, workId).None? ==> r == Err(NotFound)
    ensures FindWork(ws, workId).Some? ==> r == Err(Internal)
  {
    if FindWork(ws, workId).None? then Err(NotFound) else Err(Internal)
  }

  /** For an existing work and a positive limit, the listing as wired
      fails where the intended listing answers with a page. */
  lemma CommentListingAsWrittenFails(ws: seq<Work>, cs: seq<Comment>, workId: int, limit: Option<int>, cursorId: Option<int>)
    requires FindWork(ws, workId).Some? && CommentsRepo.LimitOf(limit) > 0
    ensures GetWorkCommentsListAsWritten(ws, cs, workId, limit, cursorId) == Err(Internal)
    ensures GetWorkCommentsList(ws, cs, workId, limit, cursorId).Ok?
  {
  }

  /** The author check of `updateComment` and `deleteComment`. */
  function AuthorCheck(cs: seq<Comment>, commentId: int, userId: int): (r: Outcome)
    ensures r == Pass <==> exists c :: c in cs && c.id == commentId && c.authorId == userId && FindComment(cs, commentId) == Some(c)
    ensures FindComment(cs, commentId).None? ==> r == Fail(NotFound)
    ensures FindComment(cs, commentId).Some? && FindComment(cs, commentId).value.authorId != userId ==> r == Fail(Unauthorized)
  {
    match FindComment(cs, commentId)
    case None => Fail(NotFound)
    case Some(c) => if userId != c.authorId then Fail(Unauthorized) else Pass
  }

  /** Whatever the role, someone other than the author is refused. */
  lemma OnlyTheAuthorPasses(cs: seq<Comment>, commentId: int, userId: int)
    requires KeysUnique(cs, CommentKey)
    requires AuthorCheck(cs, commentId, userId) == Pass
    ensures forall c :: c in cs && c.id == commentId ==> c.authorId == userId
  {
    var found := FindComment(cs, commentId).value;
    forall c | c in cs && c.id == commentId ensures c.authorId == userId {
      KeyDeterminesRow(cs, CommentKey, c, found);
    }
  }

  /** `updateComment`: NotFound for a missing comment, Unauthorized for
      anyone but its author; otherwise only its content changes. */
  method UpdateComment(db: Db, commentId: int, userId: int, content: string) returns (r: Result<Comment>)
    requires db.Valid()
    modifies db
    ensures db.Valid()
    ensures AuthorCheck(old(db.comments), commentId, userId).Fail? ==>
              r == Err(AuthorCheck(old(db.comments), commentId, userId).error) && db.comments == old(db.comments)
    ensures AuthorCheck(old(db.comments), commentId, userId) == Pass ==>
              r == Ok(FindComment(old(db.comments), commentId).value.(content := content))
              && db.comments == CommentsRepo.WithCommentContent(old(db.comments), commentId, content)
    ensures db.challenges == old(db.challenges) && db.works == old(db.works)
    ensures db.likes == old(db.likes) && db.applications == old(db.applications)
    ensures db.nextChallengeId == old(db.nextChallengeId) && db.nextWorkId == old(db.nextWorkId)
    ensures db.nextCommentId == old(db.nextCommentId)
  {
    var comment := FindComment(db.comments, commentId);
    if comment.None? {
      return Err(NotFound);
    }
    if userId != comment.value.authorId {
      return Err(Unauthorized);
    }
    r := CommentsRepo.UpdateComment(db, commentId, content);
  }

  /** `deleteComment`: NotFound for a missing comment, Unauthorized for
      anyone but its author; otherwise that comment, and only it, is
      removed. */
  method DeleteComment(db: Db, commentId: int, userId: int) returns (r: Result<Comment>)
    requires db.Valid()
    modifies db
    ensures db.Valid()
    ensures AuthorCheck(old(db.comments), commentId, userId).Fail? ==>
              r == Err(AuthorCheck(old(db.comments), commentId, userId).error) && db.comments == old(db.comments)
    ensures AuthorCheck(old(db.comments), commentId, userId) == Pass ==>
              r == Ok(FindComment(old(db.comments), commentId).value)
              && (forall c :: c in db.comments <==> c in old(db.comments) && c.id != commentId)
              && db.comments == Filter(old(db.comments), (c: Comment) => c.id != commentId)
    ensures db.challenges == old(db.challenges) && db.works == old(db.works)
    ensures db.likes == old(db.likes) && db.applications == old(db.applications)
    ensures db.nextChallengeId == old(db.nextChallengeId) && db.nextWorkId == old(db.nextWorkId)
    ensures db.nextCommentId == old(db.nextCommentId)
  {
    var comment := FindComment(db.comments, commentId);
    if comment.None? {
      return Err(NotFound);
    }
    if userId != comment.value.authorId {
      return Err(Unauthorized);
    }
    r := CommentsRepo.DeleteComment(db, commentId);
  }
}
