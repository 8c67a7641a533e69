/** The challenge service: the challenge lists, one challenge, and turning
    an application into a challenge and back. */
module ChallengesService {
  import opened Common
  import opened Seqs
  import opened Database
  import ChallengesRepo
  import ApplicationsRepo

  // ---- the lists ----

  /** The list query. Absent fields are None. */
  datatype ChallengeQuery = ChallengeQuery(
    page: Option<int>,
    pageSize: Option<int>,
    status: Option<ChallengeStatus>,
    category: Option<string>,
    documentType: Option<string>,   // the `type` parameter
    orderby: Option<string>,
    keyword: Option<string>)

  datatype ChallengeListPage = ChallengeListPage(
    totalCount: nat,
    page: int,
    pageSize: int,
    list: seq<ChallengesRepo.ChallengeWithCount>)

  function PageOf(q: ChallengeQuery): int {
    if q.page.Some? then q.page.value else 1
  }

  function PageSizeOf(q: ChallengeQuery): int {
    if q.pageSize.Some? then q.pageSize.value else 10
  }

  /** The row offset of a page, counted one page size at a time from page 1. */
  function RowOffset(page: int, size: int): int
    decreases if page < 1 then 1 - page else page - 1
  {
    if page == 1 then 0
    else if page > 1 then RowOffset(page - 1, size) + size
    else RowOffset(page + 1, size) - size
  }

  /** The offset is `(page - 1) * pageSize`, for every page number, zero and negative ones included. */
  lemma {:induction false} RowOffsetIsProduct(page: int, size: int)
    ensures RowOffset(page, size) == (page - 1) * size
    decreases if page < 1 then 1 - page else page - 1
  {
    if page > 1 {
      RowOffsetIsProduct(page - 1, size);
    } else if page < 1 {
      RowOffsetIsProduct(page + 1, size);
    }
  }

  function SkipOf(q: ChallengeQuery): int {
    RowOffset(PageOf(q), PageSizeOf(q))
  }

  /** `value && { ... }`: an absent or empty string adds no condition. */
  function Given(s: Option<string>): (r: Option<string>)
    ensures r.Some? <==> s.Some? && s.value != ""
    ensures r.Some? ==> r == s
  {
    if s.Some? && s.value != "" then s else None
  }

  /** The column a sort key orders by, as the query string names it. */
  function ColumnName(k: ChallengesRepo.OrderKey): string {
    match k
    case ById => "id"
    case ByApplicationId => "applicationId"
    case ByCreatorId => "creatorId"
    case ByCreatedAt => "createdAt"
    case ByDeadlineAt => "deadlineAt"
    case ByMaxParticipants => "maxParticipants"
  }

  /** `{ [orderby]: 'desc' }`, `createdAt` when no column is named. None for
      a name that is not a column the model orders by. */
  function OrderKeyOf(orderby: Option<string>): (r: Option<ChallengesRepo.OrderKey>)
    ensures Given(orderby).None? ==> r == Some(ChallengesRepo.ByCreatedAt)
    ensures Given(orderby).Some? && r.Some? ==> ColumnName(r.value) == orderby.value
    ensures Given(orderby).Some? ==> (r.None? <==> forall k :: ColumnName(k) != orderby.value)
  {
    if Given(orderby).None? then Some(ChallengesRepo.ByCreatedAt)
    else if orderby.value == "id" then Some(ChallengesRepo.ById)
    else if orderby.value == "applicationId" then Some(ChallengesRepo.ByApplicationId)
    else if orderby.value == "creatorId" then Some(ChallengesRepo.ByCreatorId)
    else if orderby.value == "createdAt" then Some(ChallengesRepo.ByCreatedAt)
    else if orderby.value == "deadlineAt" then Some(ChallengesRepo.ByDeadlineAt)
    else if orderby.value == "maxParticipants" then Some(ChallengesRepo.ByMaxParticipants)
    else None
  }

  /** Naming a key's column orders by that key. */
  lemma OrderKeyOfColumn(k: ChallengesRepo.OrderKey)
    ensures OrderKeyOf(Some(ColumnName(k))) == Some(k)
  {
  }

  function WhereOf(q: ChallengeQuery, participant: Option<int>): ChallengesRepo.ChallengeWhere {
    ChallengesRepo.ChallengeWhere(participant, q.status, Given(q.category), Given(q.documentType), Given(q.keyword))
  }

  /** What a listed challenge satisfies, field by field. */
  predicate SatisfiesQuery(q: ChallengeQuery, c: Challenge) {
    && (q.status.Some? ==> c.status == q.status.value)
    && (Given(q.category).Some? ==> c.category == q.category.value)
    && (Given(q.documentType).Some? ==> c.documentType == q.documentType.value)
    && (Given(q.keyword).Some? ==>
          || ChallengesRepo.ContainsInsensitive(c.title, q.keyword.value)
          || ChallengesRepo.ContainsInsensitive(c.description, q.keyword.value)
          || ChallengesRepo.ContainsInsensitive(c.category, q.keyword.value))
  }

  /** The body both list services share. */
  function ListChallenges(cs: seq<Challenge>, ws: seq<Work>, q: ChallengeQuery, participant: Option<int>)
    : (r: Result<ChallengeListPage>)
    ensures r.Ok? <==> SkipOf(q) >= 0 && PageSizeOf(q) >= 0 && OrderKeyOf(q.orderby).Some?
    ensures r.Err? ==> r.error == Internal
    ensures r.Ok? ==> r.value.page == PageOf(q) && r.value.pageSize == PageSizeOf(q)
    ensures r.Ok? ==> r.value.totalCount == |ChallengesRepo.MatchingChallenges(cs, ws, WhereOf(q, participant))|
    ensures r.Ok? ==> |r.value.list| <= PageSizeOf(q)
    ensures r.Ok? ==> |r.value.list| == (if SkipOf(q) >= r.value.totalCount then 0 else Min(PageSizeOf(q), r.value.totalCount - SkipOf(q)))
    ensures r.Ok? ==> forall i :: 0 <= i < |r.value.list| ==>
              && SkipOf(q) + i < r.value.totalCount
              && r.value.list[i] == ChallengesRepo.WithWorkCount(ws,
                   ChallengesRepo.OrderedMatches(cs, ws, WhereOf(q, participant), OrderKeyOf(q.orderby).value)[SkipOf(q) + i])
    ensures r.Ok? ==> forall i :: 0 <= i < |r.value.list| ==>
              && r.value.list[i].challenge in cs
              && SatisfiesQuery(q, r.value.list[i].challenge)
              && (participant.Some? ==> ChallengesRepo.HasWorkBy(ws, r.value.list[i].challenge.id, participant.value))
              && r.value.list[i].workCount == |WorksOf(ws, r.value.list[i].challenge.id)|
    ensures r.Ok? ==> forall i, j :: 0 <= i < j < |r.value.list| ==>
              ChallengesRepo.KeyValue(r.value.list[i].challenge, OrderKeyOf(q.orderby).value)
              >= ChallengesRepo.KeyValue(r.value.list[j].challenge, OrderKeyOf(q.orderby).value)
  {
    var page := PageOf(q);
    var pageSize := PageSizeOf(q);
    var skip := SkipOf(q);
    var orderBy := OrderKeyOf(q.orderby);
    if skip < 0 || pageSize < 0 || orderBy.None? then Err(Internal)
    else
      var (totalCount, list) := ChallengesRepo.FindChallengeList(cs, ws, WhereOf(q, participant), skip, pageSize, orderBy.value);
      Ok(ChallengeListPage(totalCount, page, pageSize, list))
  }

  /** `getChallengesList`: one page of the challenges that satisfy the
      query, newest first unless another column is named, and the number
      of all such challenges. */
  function GetChallengesList(cs: seq<Challenge>, ws: seq<Work>, q: ChallengeQuery): (r: Result<ChallengeListPage>)
    ensures r.Ok? <==> SkipOf(q) >= 0 && PageSizeOf(q) >= 0 && OrderKeyOf(q.orderby).Some?
    ensures r.Ok? ==> r.value.page == PageOf(q) && r.value.pageSize == PageSizeOf(q)
    ensures r.Ok? ==> r.value.totalCount == |Filter(cs, (c: Challenge) => SatisfiesQuery(q, c))|
    ensures r.Ok? ==> r.value.totalCount == |ChallengesRepo.MatchingChallenges(cs, ws, WhereOf(q, None))|
    ensures r.Ok? ==> |r.value.list| <= PageSizeOf(q)
    ensures r.Ok? ==> |r.value.list| == (if SkipOf(q) >= r.value.totalCount then 0 else Min(PageSizeOf(q), r.value.totalCount - SkipOf(q)))
    ensures r.Ok? ==> forall i :: 0 <= i < |r.value.list| ==>
              && SkipOf(q) + i < r.value.totalCount
              && r.value.list[i] == ChallengesRepo.WithWorkCount(ws,
                   ChallengesRepo.OrderedMatches(cs, ws, WhereOf(q, None), OrderKeyOf(q.orderby).value)[SkipOf(q) + i])
    ensures r.Ok? ==> forall i :: 0 <= i < |r.value.list| ==>
              && r.value.list[i].challenge in cs && SatisfiesQuery(q, r.value.list[i].challenge)
              && r.value.list[i].workCount == |WorksOf(ws, r.value.list[i].challenge.id)|
    ensures r.Ok? ==> forall i, j :: 0 <= i < j < |r.value.list| ==>
              ChallengesRepo.KeyValue(r.value.list[i].challenge, OrderKeyOf(q.orderby).value)
              >= ChallengesRepo.KeyValue(r.value.list[j].challenge, OrderKeyOf(q.orderby).value)
  {
    FilterSame(cs, (c: Challenge) => ChallengesRepo.Matches(ws, WhereOf(q, None), c), (c: Challenge) => SatisfiesQuery(q, c));
    ListChallenges(cs, ws, q, None)
  }

  /** `getChallengesListForUser`: the same, restricted to the challenges in
      which the user has submitted a work. */
  function GetChallengesListForUser(cs: seq<Challenge>, ws: seq<Work>, q: ChallengeQuery, userId: int)
    : (r: Result<ChallengeListPage>)
    ensures r.Ok? <==> SkipOf(q) >= 0 && PageSizeOf(q) >= 0 && OrderKeyOf(q.orderby).Some?
    ensures r.Ok? ==>
              r.value.totalCount == |Filter(cs, (c: Challenge) => SatisfiesQuery(q, c) && ChallengesRepo.HasWorkBy(ws, c.id, userId))|
    ensures r.Ok? ==> r.value.totalCount == |ChallengesRepo.MatchingChallenges(cs, ws, WhereOf(q, Some(userId)))|
    ensures r.Ok? ==> r.value.page == PageOf(q) && r.value.pageSize == PageSizeOf(q)
    ensures r.Ok? ==> |r.value.list| <= PageSizeOf(q)
    ensures r.Ok? ==> |r.value.list| == (if SkipOf(q) >= r.value.totalCount then 0 else Min(PageSizeOf(q), r.value.totalCount - SkipOf(q)))
    ensures r.Ok? ==> forall i :: 0 <= i < |r.value.list| ==>
              && SkipOf(q) + i < r.value.totalCount
              && r.value.list[i] == ChallengesRepo.WithWorkCount(ws,
                   ChallengesRepo.OrderedMatches(cs, ws, WhereOf(q, Some(userId)), OrderKeyOf(q.orderby).value)[SkipOf(q) + i])
    ensures r.Ok? ==> forall i :: 0 <= i < |r.value.list| ==>
              && r.value.list[i].challenge in cs && SatisfiesQuery(q, r.value.list[i].challenge)
              && (exists w :: w in ws && w.challengeId == r.value.list[i].challenge.id && w.workerId == userId)
              && r.value.list[i].workCount == |WorksOf(ws, r.value.list[i].challenge.id)|
    ensures r.Ok? ==> forall i, j :: 0 <= i < j < |r.value.list| ==>
              ChallengesRepo.KeyValue(r.value.list[i].challenge, OrderKeyOf(q.orderby).value)
              >= ChallengesRepo.KeyValue(r.value.list[j].challenge, OrderKeyOf(q.orderby).value)
  {
    FilterSame(cs, (c: Challenge) => ChallengesRepo.Matches(ws, WhereOf(q, Some(userId)), c),
                   (c: Challenge) => SatisfiesQuery(q, c) && ChallengesRepo.HasWorkBy(ws, c.id, userId));
    ListChallenges(cs, ws, q, Some(userId))
  }

  /** Page `p + 1` is the repository's page one page size further on than
      page `p`, so together with `ChallengesRepo.AdjacentPages` the two
      pages are the page of twice the size at page `p`'s offset. */
  lemma NextPageFollows(cs: seq<Challenge>, ws: seq<Work>, q: ChallengeQuery, participant: Option<int>)
    requires SkipOf(q) >= 0 && PageSizeOf(q) >= 0 && OrderKeyOf(q.orderby).Some?
    ensures var next := q.(page := Some(PageOf(q) + 1));
            && ListChallenges(cs, ws, next, participant).Ok?
            && ListChallenges(cs, ws, next, participant).value.list
               == ChallengesRepo.FindChallengeList(cs, ws, WhereOf(q, participant), SkipOf(q) + PageSizeOf(q), PageSizeOf(q),
                                                   OrderKeyOf(q.orderby).value).1
  {
    var next := q.(page := Some(PageOf(q) + 1));
    NextPageOffset(q, participant);
    ListAtOffset(cs, ws, next, participant, WhereOf(q, participant), SkipOf(q) + PageSizeOf(q), PageSizeOf(q),
                 OrderKeyOf(q.orderby).value);
  }

  /** `ListIsRepoPage`, with the repository call's arguments named. */
  lemma ListAtOffset(cs: seq<Challenge>, ws: seq<Work>, q: ChallengeQuery, participant: Option<int>,
                     where: ChallengesRepo.ChallengeWhere, skip: int, size: int, key: ChallengesRepo.OrderKey)
    requires WhereOf(q, participant) == where && SkipOf(q) == skip && PageSizeOf(q) == size
    requires OrderKeyOf(q.orderby) == Some(key) && skip >= 0 && size >= 0
    ensures ListChallenges(cs, ws, q, participant).Ok?
    ensures ListChallenges(cs, ws, q, participant).value.list == ChallengesRepo.FindChallengeList(cs, ws, where, skip, size, key).1
  {
    ListIsRepoPage(cs, ws, q, participant);
  }

  /** The next page differs from a page only in its offset, which grows by the page size. */
  lemma NextPageOffset(q: ChallengeQuery, participant: Option<int>)
    ensures var next := q.(page := Some(PageOf(q) + 1));
            && SkipOf(next) == SkipOf(q) + PageSizeOf(q)
            && PageSizeOf(next) == PageSizeOf(q)
            && OrderKeyOf(next.orderby) == OrderKeyOf(q.orderby)
            && WhereOf(next, participant) == WhereOf(q, participant)
  {
    var next := q.(page := Some(PageOf(q) + 1));
    assert SkipOf(next) == RowOffset(PageOf(q) + 1, PageSizeOf(q));
  }

  /** A successful list is the repository's page at the query's offset. */
  lemma ListIsRepoPage(cs: seq<Challenge>, ws: seq<Work>, q: ChallengeQuery, participant: Option<int>)
    requires SkipOf(q) >= 0 && PageSizeOf(q) >= 0 && OrderKeyOf(q.orderby).Some?
    ensures ListChallenges(cs, ws, q, participant).Ok?
    ensures ListChallenges(cs, ws, q, participant).value.list
            == ChallengesRepo.FindChallengeList(cs, ws, WhereOf(q, participant), SkipOf(q), PageSizeOf(q),
                                                OrderKeyOf(q.orderby).value).1
  {
  }

/** Filtering by a stronger condition never yields more rows. */
  lemma {:induction false} FilterStrongerShorter(cs: seq<Challenge>, p: Challenge -> bool, q: Challenge -> bool)
    requires forall c :: c in cs && q(c) ==> p(c)
    ensures |Filter(cs, q)| <= |Filter(cs, p)|
  {
    if cs != [] {
      var init := cs[..|cs| - 1];
      assert forall c :: c in init ==> c in cs;
      FilterStrongerShorter(init, p, q);
      assert cs == init + [cs[|cs| - 1]];
      FilterAppend(init, cs[|cs| - 1], p);
      FilterAppend(init, cs[|cs| - 1], q);
    }
  }

  /** The user's list never counts more challenges than the general list
      with the same query. */
  lemma ForUserCountsFewer(cs: seq<Challenge>, ws: seq<Work>, q: ChallengeQuery, userId: int)
    requires GetChallengesList(cs, ws, q).Ok?
    ensures GetChallengesListForUser(cs, ws, q, userId).Ok?
    ensures GetChallengesListForUser(cs, ws, q, userId).value.totalCount <= GetChallengesList(cs, ws, q).value.totalCount
  {
    FilterStrongerShorter(cs, (c: Challenge) => SatisfiesQuery(q, c),
                              (c: Challenge) => SatisfiesQuery(q, c) && ChallengesRepo.HasWorkBy(ws, c.id, userId));
  }

  /** `getChallengeById`: the challenge with its work count, or NotFound. */
  function GetChallengeById(cs: seq<Challenge>, ws: seq<Work>, challengeId: int): (r: Result<ChallengesRepo.ChallengeWithCount>)
    ensures r.Err? <==> forall c :: c in cs ==> c.id != challengeId
    ensures r.Err? ==> r.error == NotFound
    ensures r.Ok? ==> r.value.challenge in cs && r.value.challenge.id == challengeId
    ensures r.Ok? ==> r.value.workCount == |WorksOf(ws, challengeId)|
  {
    match ChallengesRepo.FindChallengeById(cs, ws, challengeId)
    case None => Err(NotFound)
    case Some(c) => Ok(c)
  }

  // ---- from application to challenge and back ----

  /** At most one challenge was created from each application. */
  ghost predicate OneChallengePerApplication(cs: seq<Challenge>) {
    forall i, j :: 0 <= i < j < |cs| ==> cs[i].applicationId != cs[j].applicationId
  }

  /** The challenge created from an application, if any. The repository
      the service calls has no such query (see CreateChallengeAsWritten);
      this is the lookup the service evidently intends. */
  function FindChallengeByApplicationId(cs: seq<Challenge>, applicationId: int): (r: Option<Challenge>)
    ensures r.Some? ==> r.value in cs && r.value.applicationId == applicationId
    ensures r.None? <==> forall c :: c in cs ==> c.applicationId != applicationId
  {
    First(cs, (c: Challenge) => c.applicationId == applicationId)
  }

  /** The columns a new challenge copies from its application. */
  function DataOf(a: Application): ChallengesRepo.ChallengeData {
    ChallengesRepo.ChallengeData(a.id, a.creatorId, a.title, a.documentType, a.description,
                                 a.deadlineAt, a.originalLink, a.maxParticipants, a.category)
  }

  /** `createChallenge`, one transaction: NotFound for a missing
      application; otherwise the application is APPROVED, and then, if a
      challenge already exists for it, Conflict rolls the approval back;
      otherwise a new recruiting challenge copies the application. */
  method CreateChallenge(db: Db, applicationId: int, now: int) returns (r: Result<(Application, Challenge)>)
    requires db.Valid()
    modifies db
    ensures db.Valid()
    ensures r == Err(NotFound) <==> FindApplication(old(db.applications), applicationId).None?
    ensures r == Err(Conflict) <==>
              FindApplication(old(db.applications), applicationId).Some?
              && FindChallengeByApplicationId(old(db.challenges), applicationId).Some?
    ensures r.Err? ==> r.error in {NotFound, Conflict}
    ensures r.Err? ==>
              db.applications == old(db.applications) && db.challenges == old(db.challenges)
              && db.nextChallengeId == old(db.nextChallengeId)
    ensures r.Ok? ==>
              var a := FindApplication(old(db.applications), applicationId).value;
              && r.value.0 == a.(status := Approved)
              && r.value.1 == Challenge(old(db.nextChallengeId), a.id, a.creatorId, a.title, a.documentType,
                                        a.description, a.originalLink, a.category, a.maxParticipants,
                                        a.deadlineAt, Recruiting, now)
              && db.challenges == old(db.challenges) + [r.value.1]
              && db.applications == ApplicationsRepo.WithApplicationStatus(old(db.applications), applicationId, Approved, None)
    ensures old(OneChallengePerApplication(db.challenges)) ==> OneChallengePerApplication(db.challenges)
    ensures db.works == old(db.works) && db.likes == old(db.likes) && db.comments == old(db.comments)
    ensures db.nextWorkId == old(db.nextWorkId) && db.nextCommentId == old(db.nextCommentId)
  {
    var application := FindApplication(db.applications, applicationId);
    if application.None? {
      return Err(NotFound);
    }
    var a := application.value;
    var snapshot := db.applications;
    var updatedApplication := ApplicationsRepo.UpdateApplication(db, a.id, Approved, None);
    var existing := FindChallengeByApplicationId(db.challenges, applicationId);
    if existing.Some? {
      db.applications := snapshot;   // the transaction rolls back
      return Err(Conflict);
    }
    ghost var cs0 := db.challenges;
    var newChallenge := ChallengesRepo.CreateChallenge(db, DataOf(a), now);
    r := Ok((updatedApplication.value, newChallenge));
    if OneChallengePerApplication(cs0) {
      forall i, j | 0 <= i < j < |db.challenges| ensures db.challenges[i].applicationId != db.challenges[j].applicationId {
        if j == |cs0| {
          assert db.challenges[i] in cs0;
        }
      }
    }
  }

  /** `createChallenge` as written: `findChallengeByApplicationId` is not a
      member of the challenge repository, so after the approval is written
      the call throws a TypeError and the transaction rolls back. No
      application ever becomes a challenge. */
  method CreateChallengeAsWritten(db: Db, applicationId: int, now: int) returns (r: Result<(Application, Challenge)>)
    requires db.Valid()
    modifies db
    ensures db.Valid()
    ensures r.Err?
    ensures r == Err(NotFound) <==> FindApplication(old(db.applications), applicationId).None?
    ensures r != Err(NotFound) ==> r == Err(Internal)
    ensures db.applications == old(db.applications) && db.challenges == old(db.challenges)
    ensures db.works == old(db.works) && db.likes == old(db.likes) && db.comments == old(db.comments)
    ensures db.nextChallengeId == old(db.nextChallengeId)
    ensures db.nextWorkId == old(db.nextWorkId) && db.nextCommentId == old(db.nextCommentId)
  {
    var application := FindApplication(db.applications, applicationId);
    if application.None? {
      return Err(NotFound);
    }
    var snapshot := db.applications;
    var _ := ApplicationsRepo.UpdateApplication(db, application.value.id, Approved, None);
    db.applications := snapshot;   // TypeError: the transaction rolls back
    r := Err(Internal);
  }

  /** `deleteChallenge`: NotFound for a missing challenge or a missing
      application behind it, Conflict unless that application is APPROVED;
      otherwise the challenge is removed and the application is marked
      DELETED with the admin's feedback. */
  method DeleteChallenge(db: Db, challengeId: int, adminFeedback: Option<string>) returns (r: Result<(Challenge, Application)>)
    requires db.Valid()
    modifies db
    ensures db.Valid()
    ensures FindChallenge(old(db.challenges), challengeId).None? ==> r == Err(NotFound)
    ensures FindChallenge(old(db.challenges), challengeId).Some? ==>
              var c := FindChallenge(old(db.challenges), challengeId).value;
              match FindApplication(old(db.applications), c.applicationId)
              case None => r == Err(NotFound)
              case Some(a) =>
                if a.status != Approved then r == Err(Conflict)
                else && r.Ok?
                     && r.value.0 == c
                     && r.value.1 == a.(status := Deleted, adminFeedback := if adminFeedback.Some? then adminFeedback else a.adminFeedback)
                     && db.applications == ApplicationsRepo.WithApplicationStatus(old(db.applications), a.id, Deleted, adminFeedback)
    ensures r.Err? ==> db.challenges == old(db.challenges) && db.applications == old(db.applications)
    ensures r.Ok? ==> forall x :: x in db.challenges <==> x in old(db.challenges) && x.id != challengeId
    ensures r.Ok? ==> db.challenges == Filter(old(db.challenges), (x: Challenge) => x.id != challengeId)
    ensures db.works == old(db.works) && db.likes == old(db.likes) && db.comments == old(db.comments)
    ensures db.nextChallengeId == old(db.nextChallengeId)
    ensures db.nextWorkId == old(db.nextWorkId) && db.nextCommentId == old(db.nextCommentId)
  {
    var challenge := ChallengesRepo.FindChallengeById(db.challenges, db.works, challengeId);
    if challenge.None? {
      return Err(NotFound);
    }
    var application := FindApplication(db.applications, challenge.value.challenge.applicationId);
    if application.None? {
      return Err(NotFound);
    }
    if application.value.status != Approved {
      return Err(Conflict);
    }
    var deletedChallenge := ChallengesRepo.DeleteChallenge(db, challengeId);
    var deletedApplication := ApplicationsRepo.UpdateApplication(db, application.value.id, Deleted, adminFeedback);
    r := Ok((deletedChallenge.value, deletedApplication.value));
  }
}
