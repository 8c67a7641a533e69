/** The two ChallengeApplication repository calls the challenge service
    makes inside its transactions. */
module ApplicationsRepo {
  import opened Common
  import opened Seqs
  import opened Database

  /** The application with that id after `update` writes a status and, when
      one is given, an admin feedback (an undefined field is not written). */
  function WithApplicationStatus(apps: seq<Application>, id: int, status: ApplicationStatus, feedback: Option<string>)
    : (r: seq<Application>)
    ensures |r| == |apps|
    ensures forall i :: 0 <= i < |apps| ==>
              r[i] == if apps[i].id == id
                      then apps[i].(status := status, adminFeedback := if feedback.Some? then feedback else apps[i].adminFeedback)
                      else apps[i]
  {
    seq(|apps|, i requires 0 <= i < |apps| =>
      if apps[i].id == id
      then apps[i].(status := status, adminFeedback := if feedback.Some? then feedback else apps[i].adminFeedback)
      else apps[i])
  }

  /** `updateApplication` with `data: { status, adminFeedback }`: the row
      with that id takes them; a missing id is a database error. */
  method UpdateApplication(db: Db, applicationId: int, status: ApplicationStatus, feedback: Option<string>)
    returns (r: Result<Application>)
    requires db.Valid()
    modifies db
    ensures db.Valid()
    ensures r == (match FindApplication(old(db.applications), applicationId)
                  case None => Err(Internal)
                  case Some(a) => Ok(a.(status := status, adminFeedback := if feedback.Some? then feedback else a.adminFeedback)))
    ensures db.applications == WithApplicationStatus(old(db.applications), applicationId, status, feedback)
    ensures db.challenges == old(db.challenges) && db.works == old(db.works)
    ensures db.likes == old(db.likes) && db.comments == old(db.comments)
    ensures db.nextChallengeId == old(db.nextChallengeId) && db.nextWorkId == old(db.nextWorkId)
    ensures db.nextCommentId == old(db.nextCommentId)
  {
    var found := FindApplication(db.applications, applicationId);
    db.applications := WithApplicationStatus(db.applications, applicationId, status, feedback);
    if found.None? {
      return Err(Internal);
    }
    var a := found.value;
    r := Ok(a.(status := status, adminFeedback := if feedback.Some? then feedback else a.adminFeedback));
  }
}
