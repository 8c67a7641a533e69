/** The Like table's repository. A like is the pair (workId, userId), which
    is also its primary key, so a pair is either present once or absent. */
module LikesRepo {
  import opened Common
  import opened Database

  /** `findLike`: the row for exactly that pair, if any. */
  function FindLike(likes: set<Like>, workId: int, userId: int): (r: Option<Like>)
    ensures r.Some? <==> Like(workId, userId) in likes
    ensures r.Some? ==> r.value == Like(workId, userId)
  {
    if Like(workId, userId) in likes then Some(Like(workId, userId)) else None
  }

  /** `createLike`: adds the pair; inserting a pair that is already there
      violates the primary key. */
  method CreateLike(db: Db, workId: int, userId: int) returns (r: Result<Like>)
    requires db.Valid()
    modifies db
    ensures db.Valid()
    ensures Like(workId, userId) in old(db.likes) ==> r == Err(Internal) && db.likes == old(db.likes)
    ensures Like(workId, userId) !in old(db.likes) ==>
              r == Ok(Like(workId, userId)) && db.likes == old(db.likes) + {Like(workId, userId)}
    ensures db.challenges == old(db.challenges) && db.works == old(db.works)
    ensures db.comments == old(db.comments) && db.applications == old(db.applications)
    ensures db.nextChallengeId == old(db.nextChallengeId) && db.nextWorkId == old(db.nextWorkId)
    ensures db.nextCommentId == old(db.nextCommentId)
  {
    var row := Like(workId, userId);
    if row in db.likes {
      return Err(Internal);
    }
    db.likes := db.likes + {row};
    r := Ok(row);
  }

  /** `deleteLike`: removes exactly that pair; deleting an absent pair is
      the database's "record to delete does not exist". */
  method DeleteLike(db: Db, workId: int, userId: int) returns (r: Result<Like>)
    requires db.Valid()
    modifies db
    ensures db.Valid()
    ensures Like(workId, userId) !in old(db.likes) ==> r == Err(Internal) && db.likes == old(db.likes)
    ensures Like(workId, userId) in old(db.likes) ==>
              r == Ok(Like(workId, userId)) && db.likes == old(db.likes) - {Like(workId, userId)}
    ensures db.challenges == old(db.challenges) && db.works == old(db.works)
    ensures db.comments == old(db.comments) && db.applications == old(db.applications)
    ensures db.nextChallengeId == old(db.nextChallengeId) && db.nextWorkId == old(db.nextWorkId)
    ensures db.nextCommentId == old(db.nextCommentId)
  {
    var row := Like(workId, userId);
    if row !in db.likes {
      return Err(Internal);
    }
    db.likes := db.likes - {row};
    r := Ok(row);
  }
}
