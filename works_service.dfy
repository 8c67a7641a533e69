/** The works service: submission to a challenge, the ranked works list
    of a challenge, and reading, editing and deleting one work. */
module WorksService {
  import opened Common
  import opened Seqs
  import opened Database
  import WorksRepo
  import ChallengesRepo
  import Permission

  // ---- invariants of the Work and Challenge tables ----

  /** No challenge has more works than participants it allows. */
  ghost predicate WithinCapacity(cs: seq<Challenge>, ws: seq<Work>) {
    forall c :: c in cs ==> |WorksOf(ws, c.id)| <= c.maxParticipants
  }

  /** A challenge that still recruits has room for one more work. */
  ghost predicate RecruitingHasRoom(cs: seq<Challenge>, ws: seq<Work>) {
    forall c :: c in cs && c.status == Recruiting ==> |WorksOf(ws, c.id)| < c.maxParticipants
  }

  /** Nobody has two works in the same challenge. */
  ghost predicate OneWorkPerWorker(ws: seq<Work>) {
    forall i, j :: 0 <= i < j < |ws| ==>
      ws[i].challengeId != ws[j].challengeId || ws[i].workerId != ws[j].workerId
  }

  /** The conditions under which `createWork` inserts: the challenge
      exists, the worker has no work in it yet, it recruits and it has
      room. */
  predicate Admits(cs: seq<Challenge>, ws: seq<Work>, challengeId: int, workerId: int) {
    match FindChallenge(cs, challengeId)
    case None => false
    case Some(c) =>
      && WorksOfWorkerIn(ws, challengeId, workerId) == []
      && c.status == Recruiting
      && |WorksOf(ws, challengeId)| < c.maxParticipants
  }

  /** The challenge table after an admission into challenge `c`: it is
      FILLED once the new work takes the last place. */
  function AfterAdmission(cs: seq<Challenge>, ws: seq<Work>, c: Challenge): seq<Challenge> {
    if |WorksOf(ws, c.id)| + 1 >= c.maxParticipants then WithChallengeStatus(cs, c.id, Filled) else cs
  }

  lemma WorksOfAppend(ws: seq<Work>, w: Work, challengeId: int)
    ensures WorksOf(ws + [w], challengeId) == WorksOf(ws, challengeId) + (if w.challengeId == challengeId then [w] else [])
  {
    FilterAppend(ws, w, (x: Work) => x.challengeId == challengeId);
  }

  /** Any status change keeps the capacity bound: it reads only ids and
      maxParticipants. */
  lemma StatusChangeKeepsCapacity(cs: seq<Challenge>, ws: seq<Work>, id: int, status: ChallengeStatus)
    requires WithinCapacity(cs, ws)
    ensures WithinCapacity(WithChallengeStatus(cs, id, status), ws)
  {
    var r := WithChallengeStatus(cs, id, status);
    forall d | d in r ensures |WorksOf(ws, d.id)| <= d.maxParticipants {
      var i :| 0 <= i < |r| && r[i] == d;
      assert cs[i] in cs;
    }
  }

  /** An admitted work keeps every challenge within its capacity. */
  lemma AdmissionKeepsCapacity(cs: seq<Challenge>, ws: seq<Work>, c: Challenge, w: Work)
    requires KeysUnique(cs, ChallengeKey) && WithinCapacity(cs, ws)
    requires c in cs && w.challengeId == c.id && |WorksOf(ws, c.id)| < c.maxParticipants
    ensures WithinCapacity(AfterAdmission(cs, ws, c), ws + [w])
  {
    forall d | d in cs ensures |WorksOf(ws + [w], d.id)| <= d.maxParticipants {
      WorksOfAppend(ws, w, d.id);
      if d.id == c.id {
        KeyDeterminesRow(cs, ChallengeKey, c, d);
      }
    }
    StatusChangeKeepsCapacity(cs, ws + [w], c.id, Filled);
  }

  /** An admission keeps "a recruiting challenge has room": the challenge
      that receives the last place is FILLED at the same time. */
  lemma AdmissionKeepsRoom(cs: seq<Challenge>, ws: seq<Work>, c: Challenge, w: Work)
    requires KeysUnique(cs, ChallengeKey) && RecruitingHasRoom(cs, ws)
    requires c in cs && w.challengeId == c.id
    ensures RecruitingHasRoom(AfterAdmission(cs, ws, c), ws + [w])
  {
    var after := AfterAdmission(cs, ws, c);
    forall d | d in after && d.status == Recruiting ensures |WorksOf(ws + [w], d.id)| < d.maxParticipants {
      var i :| 0 <= i < |after| && after[i] == d;
      assert cs[i] in cs;
      WorksOfAppend(ws, w, d.id);
      if d.id == c.id {
        KeyDeterminesRow(cs, ChallengeKey, c, cs[i]);
      }
    }
  }

  /** A work by someone with no work in the challenge yet keeps one work
      per worker and challenge. */
  lemma AdmissionKeepsOneWorkPerWorker(ws: seq<Work>, w: Work)
    requires OneWorkPerWorker(ws)
    requires WorksOfWorkerIn(ws, w.challengeId, w.workerId) == []
    ensures OneWorkPerWorker(ws + [w])
  {
    var ws' := ws + [w];
    forall i, j | 0 <= i < j < |ws'|
      ensures ws'[i].challengeId != ws'[j].challengeId || ws'[i].workerId != ws'[j].workerId
    {
      if j == |ws| {
        assert ws'[i] in ws;
      }
    }
  }

  /** The three table invariants survive an admission, and the challenge
      counts exactly one work more. */
  lemma AdmissionKeepsInvariants(cs: seq<Challenge>, ws: seq<Work>, c: Challenge, w: Work)
    requires KeysUnique(cs, ChallengeKey)
    requires c in cs && w.challengeId == c.id && |WorksOf(ws, c.id)| < c.maxParticipants
    requires WorksOfWorkerIn(ws, w.challengeId, w.workerId) == []
    ensures WithinCapacity(cs, ws) ==> WithinCapacity(AfterAdmission(cs, ws, c), ws + [w])
    ensures RecruitingHasRoom(cs, ws) ==> RecruitingHasRoom(AfterAdmission(cs, ws, c), ws + [w])
    ensures OneWorkPerWorker(ws) ==> OneWorkPerWorker(ws + [w])
    ensures WorksRepo.CountWorksByChallengeId(ws + [w], c.id) == |WorksOf(ws, c.id)| + 1
  {
    WorksRepo.CountWorksByChallengeIdAppend(ws, w, c.id);
    if WithinCapacity(cs, ws) {
      AdmissionKeepsCapacity(cs, ws, c, w);
    }
    if RecruitingHasRoom(cs, ws) {
      AdmissionKeepsRoom(cs, ws, c, w);
    }
    if OneWorkPerWorker(ws) {
      AdmissionKeepsOneWorkPerWorker(ws, w);
    }
  }

  /** The listing query with a worker counts exactly that worker's works
      in the challenge. */
  lemma ListedWorksOfWorker(ws: seq<Work>, challengeId: int, workerId: int)
    ensures WorksRepo.FindWorksListByChallengeId(ws, challengeId, Some(workerId), None, None).0
            == |WorksOfWorkerIn(ws, challengeId, workerId)|
  {
    FilterSame(ws, (w: Work) => w.challengeId == challengeId && (Some(workerId).None? || w.workerId == Some(workerId).value),
                   (w: Work) => w.challengeId == challengeId && w.workerId == workerId);
  }

  // ---- the service ----

  /** `createWork`, one serializable transaction: NotFound for a missing
      challenge, Conflict for a second submission by the same worker,
      Conflict when the challenge no longer recruits or is full; otherwise
      the work is inserted and the challenge is set to FILLED when this
      work takes its last place. A failure writes nothing. The challenge is
      looked up by its id (see JsArgs for the lookup as written). */
  method CreateWork(db: Db, challengeId: int, workerId: int, content: string, now: int) returns (r: Result<Work>)
    requires db.Valid()
    modifies db
    ensures db.Valid()
    ensures r == Err(NotFound) <==> FindChallenge(old(db.challenges), challengeId).None?
    ensures r.Ok? <==> Admits(old(db.challenges), old(db.works), challengeId, workerId)
    ensures r.Err? ==> r.error in {NotFound, Conflict}
    ensures r.Err? ==>
              && db.challenges == old(db.challenges) && db.works == old(db.works)
              && db.nextWorkId == old(db.nextWorkId)
    ensures r.Ok? ==>
              && r.value == Work(old(db.nextWorkId), challengeId, workerId, content, 0, false, now, None)
              && db.works == old(db.works) + [r.value]
              && db.challenges == AfterAdmission(old(db.challenges), old(db.works),
                                                 FindChallenge(old(db.challenges), challengeId).value)
    ensures r.Ok? ==> WorksRepo.CountWorksByChallengeId(db.works, challengeId)
                      == WorksRepo.CountWorksByChallengeId(old(db.works), challengeId) + 1
    ensures old(WithinCapacity(db.challenges, db.works)) ==> WithinCapacity(db.challenges, db.works)
    ensures old(RecruitingHasRoom(db.challenges, db.works)) ==> RecruitingHasRoom(db.challenges, db.works)
    ensures old(OneWorkPerWorker(db.works)) ==> OneWorkPerWorker(db.works)
    ensures db.likes == old(db.likes) && db.comments == old(db.comments) && db.applications == old(db.applications)
    ensures db.nextChallengeId == old(db.nextChallengeId) && db.nextCommentId == old(db.nextCommentId)
  {
    var challenge := ChallengesRepo.FindChallengeById(db.challenges, db.works, challengeId);
    if challenge.None? {
      return Err(NotFound);
    }
    var c := challenge.value.challenge;
    assert FindChallenge(db.challenges, challengeId) == Some(c);
    var (existingWorkCount, _) := WorksRepo.FindWorksListByChallengeId(db.works, challengeId, Some(workerId), None, None);
    ListedWorksOfWorker(db.works, challengeId, workerId);
    if existingWorkCount > 0 {
      return Err(Conflict);
    }
    var currentCount := WorksRepo.CountWorksByChallengeId(db.works, challengeId);
    var maxParticipants := c.maxParticipants;
    if c.status != Recruiting || currentCount >= maxParticipants {
      return Err(Conflict);
    }
    var newWork := InsertAdmitted(db, c, workerId, content, now, currentCount);
    r := Ok(newWork);
  }

  /** The writes of an admission into challenge `c`, which has
      `currentCount` works: insert the work, then set the challenge to
      FILLED when the new work takes its last place. The table invariants
      are kept. */
  method InsertAdmitted(db: Db, c: Challenge, workerId: int, content: string, now: int, currentCount: int)
    returns (newWork: Work)
    requires db.Valid() && c in db.challenges
    requires currentCount == |WorksOf(db.works, c.id)| < c.maxParticipants
    requires WorksOfWorkerIn(db.works, c.id, workerId) == []
    modifies db
    ensures db.Valid()
    ensures newWork == Work(old(db.nextWorkId), c.id, workerId, content, 0, false, now, None)
    ensures db.works == old(db.works) + [newWork]
    ensures db.challenges == AfterAdmission(old(db.challenges), old(db.works), c)
    ensures WorksRepo.CountWorksByChallengeId(db.works, c.id) == currentCount + 1
    ensures old(WithinCapacity(db.challenges, db.works)) ==> WithinCapacity(db.challenges, db.works)
    ensures old(RecruitingHasRoom(db.challenges, db.works)) ==> RecruitingHasRoom(db.challenges, db.works)
    ensures old(OneWorkPerWorker(db.works)) ==> OneWorkPerWorker(db.works)
    ensures db.likes == old(db.likes) && db.comments == old(db.comments) && db.applications == old(db.applications)
    ensures db.nextChallengeId == old(db.nextChallengeId) && db.nextCommentId == old(db.nextCommentId)
  {
    ghost var cs0, ws0 := db.challenges, db.works;
    newWork := WorksRepo.CreateWork(db, c.id, workerId, content, now);
    if currentCount + 1 >= c.maxParticipants {
      var _ := ChallengesRepo.UpdateChallengeStatus(db, c.id, Filled);
    }
    AdmissionKeepsInvariants(cs0, ws0, c, newWork);
  }

  /** `page` and `limit` as `getChallengeWorksList` defaults them. */
  function PageOrDefault(page: Option<int>): int {
    if page.Some? then page.value else 1
  }

  function LimitOrDefault(limit: Option<int>): int {
    if limit.Some? then limit.value else 10
  }

  /** The offset `getChallengeWorksList` computes, `(page - 1) * limit`. */
  function SkipOf(page: Option<int>, limit: Option<int>): int {
    (PageOrDefault(page) - 1) * LimitOrDefault(limit)
  }

  /** `getChallengeWorksList`: NotFound for a missing challenge; otherwise
      the ranked page `skip = (page - 1) * limit`, `take = limit` of the
      challenge's standings and the challenge's total number of works. A
      negative skip or take is rejected by the database. */
  method GetChallengeWorksList(db: Db, challengeId: int, page: Option<int>, limit: Option<int>)
    returns (r: Result<(nat, seq<WorksRepo.RankedWork>)>)
    ensures FindChallenge(db.challenges, challengeId).None? ==> r == Err(NotFound)
    ensures FindChallenge(db.challenges, challengeId).Some? ==>
              (r.Ok? <==> SkipOf(page, limit) >= 0 && LimitOrDefault(limit) >= 0)
    ensures r.Err? ==> r.error in {NotFound, Internal}
    ensures r.Ok? ==> r.value.0 == |WorksOf(db.works, challengeId)|
    ensures r.Ok? ==> SkipOf(page, limit) >= 0 && LimitOrDefault(limit) >= 0
    ensures r.Ok? ==> |r.value.1| <= LimitOrDefault(limit)
    ensures r.Ok? ==> |r.value.1| == |Page(Standings(db.works, challengeId), SkipOf(page, limit), LimitOrDefault(limit))|
    ensures r.Ok? ==> WorksRepo.IsRankedSlice(WorksOf(db.works, challengeId), Standings(db.works, challengeId),
                                              SkipOf(page, limit), r.value.1)
  {
    var challenge := ChallengesRepo.FindChallengeById(db.challenges, db.works, challengeId);
    if challenge.None? {
      return Err(NotFound);
    }
    var skip := SkipOf(page, limit);
    var take := LimitOrDefault(limit);
    if skip < 0 || take < 0 {
      return Err(Internal);
    }
    var totalCount, rankedList := WorksRepo.FindWorksListWithRankByChallengeId(db, challengeId, skip, take);
    r := Ok((totalCount, rankedList));
  }

  /** `getWork`: the work with that id, or NotFound. */
  function GetWork(ws: seq<Work>, workId: int): (r: Result<Work>)
    ensures r.Ok? <==> exists w :: w in ws && w.id == workId
    ensures r.Ok? ==> r.value in ws && r.value.id == workId
    ensures r.Err? ==> r.error == NotFound
  {
    match FindWork(ws, workId)
    case None => Err(NotFound)
    case Some(w) => Ok(w)
  }

  /** `updateWork`: NotFound for a missing work, Forbidden unless the
      caller owns it or is an admin; otherwise only its content and
      editedAt change. */
  method UpdateWork(db: Db, workId: int, userId: int, role: Role, content: string, now: int) returns (r: Result<Work>)
    requires db.Valid()
    modifies db
    ensures db.Valid()
    ensures GetWork(old(db.works), workId).Err? ==> r == Err(NotFound)
    ensures GetWork(old(db.works), workId).Ok? ==>
              var prev := GetWork(old(db.works), workId).value;
              if Permission.IsAuthorized(prev.workerId, userId, role) == Pass
              then r == Ok(prev.(content := content, editedAt := Some(now)))
              else r == Err(Forbidden)
    ensures r.Err? ==> db.works == old(db.works)
    ensures r.Ok? ==> |db.works| == |old(db.works)|
    ensures r.Ok? ==> forall i :: 0 <= i < |db.works| ==>
                db.works[i] == if old(db.works)[i].id == workId then r.value else old(db.works)[i]
    ensures db.challenges == old(db.challenges) && db.likes == old(db.likes)
    ensures db.comments == old(db.comments) && db.applications == old(db.applications)
    ensures db.nextWorkId == old(db.nextWorkId)
    ensures db.nextChallengeId == old(db.nextChallengeId) && db.nextCommentId == old(db.nextCommentId)
  {
    var prevWork := GetWork(db.works, workId);
    if prevWork.Err? {
      return Err(NotFound);
    }
    var allowed := Permission.IsAuthorized(prevWork.value.workerId, userId, role);
    if allowed.Fail? {
      return Err(allowed.error);
    }
    r := WorksRepo.UpdateWork(db, workId, content, now);
  }

  /** `deleteWork`: NotFound for a missing work, Forbidden unless the
      caller owns it or is an admin; otherwise that work, and only it, is
      removed. */
  method DeleteWork(db: Db, workId: int, userId: int, role: Role) returns (r: Result<Work>)
    requires db.Valid()
    modifies db
    ensures db.Valid()
    ensures GetWork(old(db.works), workId).Err? ==> r == Err(NotFound)
    ensures GetWork(old(db.works), workId).Ok? ==>
              var prev := GetWork(old(db.works), workId).value;
              if Permission.IsAuthorized(prev.workerId, userId, role) == Pass
              then r == Ok(prev)
              else r == Err(Forbidden)
    ensures r.Err? ==> db.works == old(db.works)
    ensures r.Ok? ==> forall w :: w in db.works <==> w in old(db.works) && w.id != workId
    ensures r.Ok? ==> db.works == Filter(old(db.works), (w: Work) => w.id != workId)
    ensures db.challenges == old(db.challenges) && db.likes == old(db.likes)
    ensures db.comments == old(db.comments) && db.applications == old(db.applications)
    ensures db.nextWorkId == old(db.nextWorkId)
    ensures db.nextChallengeId == old(db.nextChallengeId) && db.nextCommentId == old(db.nextCommentId)
  {
    var prevWork := GetWork(db.works, workId);
    if prevWork.Err? {
      return Err(NotFound);
    }
    var allowed := Permission.IsAuthorized(prevWork.value.workerId, userId, role);
    if allowed.Fail? {
      return Err(allowed.error);
    }
    r := WorksRepo.DeleteWork(db, workId);
  }
}
