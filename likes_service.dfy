/** The like service: like and unlike a work. Neither touches the Work
    table; in particular `likeCount` is not maintained here. */
module LikesService {
  import opened Common
  import opened Database
  import LikesRepo

  /** `createLike`: NotFound when the work does not exist, Conflict when
      the user already likes it; otherwise the pair is added. The work is
      looked up by its id (see JsArgs for the lookup as written). */
  method CreateLike(db: Db, workId: int, userId: int) returns (r: Result<Like>)
    requires db.Valid()
    modifies db
    ensures db.Valid()
    ensures r == Err(NotFound) <==> FindWork(old(db.works), workId).None?
    ensures r == Err(Conflict) <==> FindWork(old(db.works), workId).Some? && Like(workId, userId) in old(db.likes)
    ensures r.Ok? <==> FindWork(old(db.works), workId).Some? && Like(workId, userId) !in old(db.likes)
    ensures r.Ok? ==> r.value == Like(workId, userId) && db.likes == old(db.likes) + {Like(workId, userId)}
    ensures r.Err? ==> db.likes == old(db.likes)
    ensures db.challenges == old(db.challenges) && db.works == old(db.works)
    ensures db.comments == old(db.comments) && db.applications == old(db.applications)
    ensures db.nextChallengeId == old(db.nextChallengeId) && db.nextWorkId == old(db.nextWorkId)
    ensures db.nextCommentId == old(db.nextCommentId)
  {
    var work := FindWork(db.works, workId);
    if work.None? {
      return Err(NotFound);
    }
    var existingLike := LikesRepo.FindLike(db.likes, workId, userId);
    if existingLike.Some? {
      return Err(Conflict);
    }
    r := LikesRepo.CreateLike(db, workId, userId);
  }

  /** `deleteLike`: NotFound when the user does not like the work;
      otherwise the pair, and only it, is removed. */
  method DeleteLike(db: Db, workId: int, userId: int) returns (r: Result<Like>)
    requires db.Valid()
    modifies db
    ensures db.Valid()
    ensures r.Err? <==> Like(workId, userId) !in old(db.likes)
    ensures r.Err? ==> r.error == NotFound && db.likes == old(db.likes)
    ensures r.Ok? ==> r.value == Like(workId, userId) && db.likes == old(db.likes) - {Like(workId, userId)}
    ensures db.challenges == old(db.challenges) && db.works == old(db.works)
    ensures db.comments == old(db.comments) && db.applications == old(db.applications)
    ensures db.nextChallengeId == old(db.nextChallengeId) && db.nextWorkId == old(db.nextWorkId)
    ensures db.nextCommentId == old(db.nextCommentId)
  {
    var existingLike := LikesRepo.FindLike(db.likes, workId, userId);
    if existingLike.None? {
      return Err(NotFound);
    }
    r := LikesRepo.DeleteLike(db, workId, userId);
  }

  /** Liking and then unliking a work leaves the like relation as it was;
      unliking fails only if liking did not happen. */
  method LikeThenUnlike(db: Db, workId: int, userId: int) returns (liked: Result<Like>, unliked: Result<Like>)
    requires db.Valid()
    modifies db
    ensures liked.Ok? ==> unliked.Ok? && db.likes == old(db.likes)
    ensures liked == Err(Conflict) ==> unliked.Ok? && db.likes == old(db.likes) - {Like(workId, userId)}
    ensures liked == Err(NotFound) ==> (unliked.Ok? <==> Like(workId, userId) in old(db.likes))
    ensures db.works == old(db.works)
  {
    liked := CreateLike(db, workId, userId);
    unliked := DeleteLike(db, workId, userId);
  }
}
