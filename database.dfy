/** The database of record: the Challenge, Work, Like, Comment and
    ChallengeApplication tables, held in memory. A table is a sequence of
    rows in insertion order; Like is a set because its primary key is the
    whole row (workId, userId). Every repository function and every
    `$transaction` of the services is a method that receives the database
    object, as the source passes its transaction client `tx`. */
module Database {
  import opened Common
  import opened Seqs
  import Ordering

  datatype ChallengeStatus = Recruiting | Filled | Closed

  datatype Challenge = Challenge(
    id: int,
    applicationId: int,
    creatorId: int,
    title: string,
    documentType: string,
    description: string,
    originalLink: string,
    category: string,
    maxParticipants: int,
    deadlineAt: int,
    status: ChallengeStatus,
    createdAt: int)

  datatype Work = Work(
    id: int,
    challengeId: int,
    workerId: int,
    content: string,
    likeCount: nat,
    isSelected: bool,
    createdAt: int,
    editedAt: Option<int>)

  datatype Like = Like(workId: int, userId: int)

  datatype Comment = Comment(
    id: int,
    workId: int,
    authorId: int,
    content: string,
    createdAt: int)

  datatype ApplicationStatus = Pending | Approved | Rejected | Deleted

  datatype Application = Application(
    id: int,
    creatorId: int,
    title: string,
    documentType: string,
    description: string,
    originalLink: string,
    maxParticipants: int,
    deadlineAt: int,
    category: string,
    status: ApplicationStatus,
    adminFeedback: Option<string>)

  function ChallengeKey(c: Challenge): int { c.id }
  function WorkKey(w: Work): int { w.id }
  function CommentKey(c: Comment): int { c.id }
  function ApplicationKey(a: Application): int { a.id }

  class Db {
    var challenges: seq<Challenge>
    var works: seq<Work>
    var likes: set<Like>
    var comments: seq<Comment>
    var applications: seq<Application>
    // the autoincrement sequences of the three tables this core inserts into
    var nextChallengeId: int
    var nextWorkId: int
    var nextCommentId: int

    /** Primary keys are unique and below their autoincrement sequence. */
    ghost predicate Valid()
      reads this
    {
      && KeysUnique(challenges, ChallengeKey) && KeysBelow(challenges, ChallengeKey, nextChallengeId)
      && KeysUnique(works, WorkKey) && KeysBelow(works, WorkKey, nextWorkId)
      && KeysUnique(comments, CommentKey) && KeysBelow(comments, CommentKey, nextCommentId)
      && KeysUnique(applications, ApplicationKey)
    }

    /** A database whose only rows are the given applications (which are
        created by the application workflow, outside this model). */
    constructor (applications: seq<Application>)
      requires KeysUnique(applications, ApplicationKey)
      ensures Valid()
      ensures this.applications == applications
      ensures challenges == [] && works == [] && likes == {} && comments == []
    {
      this.applications := applications;
      challenges, works, likes, comments := [], [], {}, [];
      nextChallengeId, nextWorkId, nextCommentId := 1, 1, 1;
    }
  }

  // ---- lookups by primary key (`findUnique({ where: { id } })`) ----

  function FindChallenge(cs: seq<Challenge>, id: int): (r: Option<Challenge>)
    ensures r.Some? ==> r.value in cs && r.value.id == id
    ensures r.None? ==> forall c :: c in cs ==> c.id != id
  {
    First(cs, (c: Challenge) => c.id == id)
  }

  function FindWork(ws: seq<Work>, id: int): (r: Option<Work>)
    ensures r.Some? ==> r.value in ws && r.value.id == id
    ensures r.None? ==> forall w :: w in ws ==> w.id != id
  {
    First(ws, (w: Work) => w.id == id)
  }

  function FindComment(cs: seq<Comment>, id: int): (r: Option<Comment>)
    ensures r.Some? ==> r.value in cs && r.value.id == id
    ensures r.None? ==> forall c :: c in cs ==> c.id != id
  {
    First(cs, (c: Comment) => c.id == id)
  }

  function FindApplication(apps: seq<Application>, id: int): (r: Option<Application>)
    ensures r.Some? ==> r.value in apps && r.value.id == id
    ensures r.None? ==> forall a :: a in apps ==> a.id != id
  {
    First(apps, (a: Application) => a.id == id)
  }

  // ---- `where` queries over the Work table ----

  /** `where: { challengeId }` */
  function WorksOf(ws: seq<Work>, challengeId: int): (r: seq<Work>)
    ensures forall w :: w in r <==> w in ws && w.challengeId == challengeId
  {
    Filter(ws, (w: Work) => w.challengeId == challengeId)
  }

  /** `where: { challengeId, workerId }` */
  function WorksOfWorkerIn(ws: seq<Work>, challengeId: int, workerId: int): (r: seq<Work>)
    ensures forall w :: w in r <==> w in ws && w.challengeId == challengeId && w.workerId == workerId
  {
    Filter(ws, (w: Work) => w.challengeId == challengeId && w.workerId == workerId)
  }

  /** The standings order: more likes first, then the earlier submission
      (`orderBy: [{ likeCount: 'desc' }, { createdAt: 'asc' }]`). */
  function StandingBefore(a: Work, b: Work): bool {
    a.likeCount > b.likeCount || (a.likeCount == b.likeCount && a.createdAt <= b.createdAt)
  }

  lemma StandingIsPreorder()
    ensures Ordering.Total(StandingBefore) && Ordering.Transitive(StandingBefore)
  {
  }

  /** The works of a challenge as the ranking query returns them. */
  function Standings(ws: seq<Work>, challengeId: int): (r: seq<Work>)
    ensures Ordering.Sorted(r, StandingBefore)
    ensures multiset(r) == multiset(WorksOf(ws, challengeId))
    ensures |r| == |WorksOf(ws, challengeId)|
  {
    StandingIsPreorder();
    Ordering.SortSorted(WorksOf(ws, challengeId), StandingBefore);
    Ordering.SortLength(WorksOf(ws, challengeId), StandingBefore);
    Ordering.Sort(WorksOf(ws, challengeId), StandingBefore)
  }

  // ---- row updates (`update({ where: { id }, data })`) ----

  function WithChallengeStatus(cs: seq<Challenge>, id: int, status: ChallengeStatus): (r: seq<Challenge>)
    ensures |r| == |cs|
    ensures forall i :: 0 <= i < |cs| ==> r[i] == if cs[i].id == id then cs[i].(status := status) else cs[i]
  {
    seq(|cs|, i requires 0 <= i < |cs| => if cs[i].id == id then cs[i].(status := status) else cs[i])
  }

  lemma WithChallengeStatusKeys(cs: seq<Challenge>, id: int, status: ChallengeStatus, next: int)
    requires KeysUnique(cs, ChallengeKey) && KeysBelow(cs, ChallengeKey, next)
    ensures KeysUnique(WithChallengeStatus(cs, id, status), ChallengeKey)
    ensures KeysBelow(WithChallengeStatus(cs, id, status), ChallengeKey, next)
  {
    var r := WithChallengeStatus(cs, id, status);
    forall x | x in r ensures ChallengeKey(x) < next {
      var i :| 0 <= i < |r| && r[i] == x;
      assert cs[i] in cs;
    }
  }
}
