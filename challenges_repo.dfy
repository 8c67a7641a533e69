/** The Challenge table's repository. Reads reshape Prisma's
    `_count: { works }` into a `workCount` next to the row. */
module ChallengesRepo {
  import opened Common
  import opened Seqs
  import opened Database
  import Ordering

  datatype ChallengeWithCount = ChallengeWithCount(challenge: Challenge, workCount: nat)

  /** The row and the number of works that reference it. */
  function WithWorkCount(ws: seq<Work>, c: Challenge): (r: ChallengeWithCount)
    ensures r.challenge == c
    ensures r.workCount == |WorksOf(ws, c.id)|
  {
    ChallengeWithCount(c, |WorksOf(ws, c.id)|)
  }

  /** `findChallengeById`: null for an absent id, otherwise the row with its
      work count. */
  function FindChallengeById(cs: seq<Challenge>, ws: seq<Work>, challengeId: int): (r: Option<ChallengeWithCount>)
    ensures r.None? <==> forall c :: c in cs ==> c.id != challengeId
    ensures r.Some? ==> r.value.challenge in cs && r.value.challenge.id == challengeId
    ensures r.Some? ==> r.value.workCount == |WorksOf(ws, challengeId)|
  {
    match FindChallenge(cs, challengeId)
    case None => None
    case Some(c) => Some(WithWorkCount(ws, c))
  }

  /** The `where` object the list services build. A field that is None
      adds no condition. */
  datatype ChallengeWhere = ChallengeWhere(
    participant: Option<int>,   // works: { some: { workerId } }
    status: Option<ChallengeStatus>,
    category: Option<string>,
    documentType: Option<string>,
    keyword: Option<string>)    // OR of title / description / category contains, case-insensitive

  /** ASCII letters folded to lower case (the `mode: 'insensitive'` of the
      keyword search). */
  function Lower(s: string): (r: string)
    ensures |r| == |s|
    ensures forall i :: 0 <= i < |r| ==> !('A' <= r[i] <= 'Z')
    ensures forall i :: 0 <= i < |s| && !('A' <= s[i] <= 'Z') ==> r[i] == s[i]
    ensures forall i :: 0 <= i < |s| && 'A' <= s[i] <= 'Z' ==> r[i] as int == s[i] as int + 32
  {
    seq(|s|, i requires 0 <= i < |s| =>
      if 'A' <= s[i] <= 'Z' then (s[i] as int + 32) as char else s[i])
  }

  /** ASCII letters raised to upper case. */
  function Upper(s: string): (r: string)
    ensures |r| == |s|
    ensures forall i :: 0 <= i < |r| ==> !('a' <= r[i] <= 'z')
  {
    seq(|s|, i requires 0 <= i < |s| =>
      if 'a' <= s[i] <= 'z' then (s[i] as int - 32) as char else s[i])
  }

  /** Folding an already folded string changes nothing. */
  lemma LowerIdempotent(s: string)
    ensures Lower(Lower(s)) == Lower(s)
  {
  }

  /** Folding forgets case: a string and its upper-cased form fold alike. */
  lemma LowerForgetsCase(s: string)
    ensures Lower(Upper(s)) == Lower(s)
  {
    var a, b := Lower(Upper(s)), Lower(s);
    forall i | 0 <= i < |s| ensures a[i] == b[i] {
    }
  }

  predicate InfixAt(needle: string, hay: string, i: int) {
    0 <= i <= |hay| - |needle| && hay[i .. i + |needle|] == needle
  }

  predicate IsInfix(needle: string, hay: string) {
    exists i :: 0 <= i <= |hay| && InfixAt(needle, hay, i)
  }

  predicate ContainsInsensitive(hay: string, needle: string) {
    IsInfix(Lower(needle), Lower(hay))
  }

  /** The keyword search answers alike for a keyword and its upper-cased
      form, and for a text and its upper-cased form. */
  lemma ContainsInsensitiveIgnoresCase(hay: string, needle: string)
    ensures ContainsInsensitive(hay, Upper(needle)) == ContainsInsensitive(hay, needle)
    ensures ContainsInsensitive(Upper(hay), needle) == ContainsInsensitive(hay, needle)
  {
    LowerForgetsCase(needle);
    LowerForgetsCase(hay);
  }

  predicate HasWorkBy(ws: seq<Work>, challengeId: int, workerId: int) {
    exists w :: w in ws && w.challengeId == challengeId && w.workerId == workerId
  }

  predicate Matches(ws: seq<Work>, where: ChallengeWhere, c: Challenge) {
    && (where.participant.Some? ==> HasWorkBy(ws, c.id, where.participant.value))
    && (where.status.Some? ==> c.status == where.status.value)
    && (where.category.Some? ==> c.category == where.category.value)
    && (where.documentType.Some? ==> c.documentType == where.documentType.value)
    && (where.keyword.Some? ==>
          || ContainsInsensitive(c.title, where.keyword.value)
          || ContainsInsensitive(c.description, where.keyword.value)
          || ContainsInsensitive(c.category, where.keyword.value))
  }

  /** The numeric columns a list may be ordered by, always descending. */
  datatype OrderKey = ById | ByApplicationId | ByCreatorId | ByCreatedAt | ByDeadlineAt | ByMaxParticipants

  function KeyValue(c: Challenge, key: OrderKey): int {
    match key
    case ById => c.id
    case ByApplicationId => c.applicationId
    case ByCreatorId => c.creatorId
    case ByCreatedAt => c.createdAt
    case ByDeadlineAt => c.deadlineAt
    case ByMaxParticipants => c.maxParticipants
  }

  function Descending(key: OrderKey): (Challenge, Challenge) -> bool {
    (a: Challenge, b: Challenge) => KeyValue(a, key) >= KeyValue(b, key)
  }

  lemma DescendingIsPreorder(key: OrderKey)
    ensures Ordering.Total(Descending(key)) && Ordering.Transitive(Descending(key))
  {
  }

  function MatchingChallenges(cs: seq<Challenge>, ws: seq<Work>, where: ChallengeWhere): (r: seq<Challenge>)
    ensures forall c :: c in r <==> c in cs && Matches(ws, where, c)
  {
    Filter(cs, (c: Challenge) => Matches(ws, where, c))
  }

  /** Every matching challenge, in descending order of the key column. */
  function OrderedMatches(cs: seq<Challenge>, ws: seq<Work>, where: ChallengeWhere, orderBy: OrderKey): (r: seq<Challenge>)
    ensures Ordering.Sorted(r, Descending(orderBy))
    ensures multiset(r) == multiset(MatchingChallenges(cs, ws, where))
    ensures |r| == |MatchingChallenges(cs, ws, where)|
    ensures forall c :: c in r <==> c in cs && Matches(ws, where, c)
  {
    var matching := MatchingChallenges(cs, ws, where);
    DescendingIsPreorder(orderBy);
    Ordering.SortSorted(matching, Descending(orderBy));
    Ordering.SortLength(matching, Descending(orderBy));
    Ordering.SortMembers(matching, Descending(orderBy));
    var r := Ordering.Sort(matching, Descending(orderBy));
    r
  }

  /** `findChallengeList`: the number of all matching challenges, and the
      rows at positions `skip` to `skip + take` of them in the requested
      order, each with its work count. */
  function FindChallengeList(
    cs: seq<Challenge>, ws: seq<Work>, where: ChallengeWhere, skip: nat, take: nat, orderBy: OrderKey)
    : (r: (nat, seq<ChallengeWithCount>))
    ensures r.0 == |MatchingChallenges(cs, ws, where)|
    ensures |r.1| == if skip >= r.0 then 0 else Min(take, r.0 - skip)
    ensures forall i :: 0 <= i < |r.1| ==>
              skip + i < r.0 && r.1[i] == WithWorkCount(ws, OrderedMatches(cs, ws, where, orderBy)[skip + i])
    ensures forall i :: 0 <= i < |r.1| ==>
              r.1[i].challenge in cs && Matches(ws, where, r.1[i].challenge)
              && r.1[i].workCount == |WorksOf(ws, r.1[i].challenge.id)|
    ensures forall i, j :: 0 <= i < j < |r.1| ==>
              KeyValue(r.1[i].challenge, orderBy) >= KeyValue(r.1[j].challenge, orderBy)
  {
    var ordered := OrderedMatches(cs, ws, where, orderBy);
    var page := Page(ordered, skip, take);
    assert forall i :: 0 <= i < |page| ==> page[i] in ordered;
    forall i, j | 0 <= i < j < |page| ensures KeyValue(page[i], orderBy) >= KeyValue(page[j], orderBy) {
      assert Descending(orderBy)(ordered[skip + i], ordered[skip + j]);
    }
    (|ordered|, WithWorkCounts(ws, page))
  }

  /** Two adjacent pages of the list, the second starting where the first
      stops, are the one page of their combined size. */
  lemma AdjacentPages(cs: seq<Challenge>, ws: seq<Work>, where: ChallengeWhere, skip: nat, a: nat, b: nat, orderBy: OrderKey)
    ensures FindChallengeList(cs, ws, where, skip, a, orderBy).1 + FindChallengeList(cs, ws, where, skip + a, b, orderBy).1
            == FindChallengeList(cs, ws, where, skip, a + b, orderBy).1
  {
    var ordered := OrderedMatches(cs, ws, where, orderBy);
    PageJoin(ordered, skip, a, b);
    WithWorkCountsAppend(ws, Page(ordered, skip, a), Page(ordered, skip + a, b));
  }

  lemma WithWorkCountsAppend(ws: seq<Work>, x: seq<Challenge>, y: seq<Challenge>)
    ensures WithWorkCounts(ws, x + y) == WithWorkCounts(ws, x) + WithWorkCounts(ws, y)
  {
    assert forall i :: 0 <= i < |x + y| ==> WithWorkCounts(ws, x + y)[i] == (WithWorkCounts(ws, x) + WithWorkCounts(ws, y))[i];
  }

  /** Each row of a page next to its work count. */
  function WithWorkCounts(ws: seq<Work>, page: seq<Challenge>): (r: seq<ChallengeWithCount>)
    ensures |r| == |page|
    ensures forall i :: 0 <= i < |r| ==> r[i] == WithWorkCount(ws, page[i])
  {
    seq(|page|, i requires 0 <= i < |page| => WithWorkCount(ws, page[i]))
  }

  // ---- writes ----

  /** The columns `createChallenge` copies from an application. */
  datatype ChallengeData = ChallengeData(
    applicationId: int,
    creatorId: int,
    title: string,
    documentType: string,
    description: string,
    deadlineAt: int,
    originalLink: string,
    maxParticipants: int,
    category: string)

  /** `createChallenge`: a new row with the next id, recruiting. */
  method CreateChallenge(db: Db, data: ChallengeData, now: int) returns (c: Challenge)
    requires db.Valid()
    modifies db
    ensures db.Valid()
    ensures c == Challenge(old(db.nextChallengeId), data.applicationId, data.creatorId, data.title,
                           data.documentType, data.description, data.originalLink, data.category,
                           data.maxParticipants, data.deadlineAt, Recruiting, now)
    ensures db.challenges == old(db.challenges) + [c]
    ensures db.nextChallengeId == old(db.nextChallengeId) + 1
    ensures db.works == old(db.works) && db.likes == old(db.likes)
    ensures db.comments == old(db.comments) && db.applications == old(db.applications)
    ensures db.nextWorkId == old(db.nextWorkId) && db.nextCommentId == old(db.nextCommentId)
  {
    c := Challenge(db.nextChallengeId, data.applicationId, data.creatorId, data.title,
                   data.documentType, data.description, data.originalLink, data.category,
                   data.maxParticipants, data.deadlineAt, Recruiting, now);
    db.challenges := db.challenges + [c];
    db.nextChallengeId := db.nextChallengeId + 1;
  }

  /** The columns an update may carry; None leaves a column as it is. The
      route forwards the request body unfiltered, so besides the editable
      fields a body may also name applicationId, creatorId, createdAt or
      status. */
  datatype ChallengePatch = ChallengePatch(
    applicationId: Option<int>,
    creatorId: Option<int>,
    title: Option<string>,
    documentType: Option<string>,
    description: Option<string>,
    originalLink: Option<string>,
    category: Option<string>,
    maxParticipants: Option<int>,
    deadlineAt: Option<int>,
    status: Option<ChallengeStatus>,
    createdAt: Option<int>)

  /** A column's value after an update: the patch's value when it names
      the column, the old value otherwise. */
  function Pick<T>(given: Option<T>, current: T): (r: T)
    ensures given.None? ==> r == current
    ensures given.Some? ==> r == given.value
  {
    if given.Some? then given.value else current
  }

  /** The row after the update: the id never changes, a column the patch
      names takes the given value, and every other column keeps its value. */
  function Patched(c: Challenge, p: ChallengePatch): (r: Challenge)
    ensures r.id == c.id
    ensures r.applicationId == Pick(p.applicationId, c.applicationId)
    ensures r.creatorId == Pick(p.creatorId, c.creatorId)
    ensures r.createdAt == Pick(p.createdAt, c.createdAt)
    ensures r.title == Pick(p.title, c.title) && r.documentType == Pick(p.documentType, c.documentType)
    ensures r.description == Pick(p.description, c.description) && r.originalLink == Pick(p.originalLink, c.originalLink)
    ensures r.category == Pick(p.category, c.category) && r.maxParticipants == Pick(p.maxParticipants, c.maxParticipants)
    ensures r.deadlineAt == Pick(p.deadlineAt, c.deadlineAt) && r.status == Pick(p.status, c.status)
    ensures p.applicationId.None? && p.creatorId.None? && p.createdAt.None? ==>
              r.applicationId == c.applicationId && r.creatorId == c.creatorId && r.createdAt == c.createdAt
  {
    Challenge(c.id, Pick(p.applicationId, c.applicationId), Pick(p.creatorId, c.creatorId),
              Pick(p.title, c.title), Pick(p.documentType, c.documentType),
              Pick(p.description, c.description), Pick(p.originalLink, c.originalLink),
              Pick(p.category, c.category), Pick(p.maxParticipants, c.maxParticipants),
              Pick(p.deadlineAt, c.deadlineAt), Pick(p.status, c.status), Pick(p.createdAt, c.createdAt))
  }

  /** Patching is idempotent: a second identical update changes nothing. */
  lemma PatchIdempotent(c: Challenge, p: ChallengePatch)
    ensures Patched(Patched(c, p), p) == Patched(c, p)
  {
  }

  function WithPatch(cs: seq<Challenge>, id: int, p: ChallengePatch): (r: seq<Challenge>)
    ensures |r| == |cs|
    ensures forall i :: 0 <= i < |cs| ==> r[i] == if cs[i].id == id then Patched(cs[i], p) else cs[i]
  {
    seq(|cs|, i requires 0 <= i < |cs| => if cs[i].id == id then Patched(cs[i], p) else cs[i])
  }

  /** `updateChallenge`: the row with that id takes the given columns. */
  method UpdateChallenge(db: Db, challengeId: int, p: ChallengePatch) returns (r: Result<Challenge>)
    requires db.Valid()
    modifies db
    ensures db.Valid()
    ensures r == (match FindChallenge(old(db.challenges), challengeId)
                  case None => Err(Internal)
                  case Some(c) => Ok(Patched(c, p)))
    ensures db.challenges == WithPatch(old(db.challenges), challengeId, p)
    ensures db.works == old(db.works) && db.likes == old(db.likes)
    ensures db.comments == old(db.comments) && db.applications == old(db.applications)
    ensures db.nextChallengeId == old(db.nextChallengeId)
    ensures db.nextWorkId == old(db.nextWorkId) && db.nextCommentId == old(db.nextCommentId)
  {
    var found := FindChallenge(db.challenges, challengeId);
    var before := db.challenges;
    db.challenges := WithPatch(db.challenges, challengeId, p);
    forall x | x in db.challenges ensures ChallengeKey(x) < db.nextChallengeId {
      var i :| 0 <= i < |db.challenges| && db.challenges[i] == x;
      assert before[i] in before;
    }
    if found.None? {
      return Err(Internal);
    }
    r := Ok(Patched(found.value, p));
  }

  /** `updateChallengeStatus`: only the status of the row with that id
      changes. */
  method UpdateChallengeStatus(db: Db, challengeId: int, status: ChallengeStatus) returns (r: Result<Challenge>)
    requires db.Valid()
    modifies db
    ensures db.Valid()
    ensures r == (match FindChallenge(old(db.challenges), challengeId)
                  case None => Err(Internal)
                  case Some(c) => Ok(c.(status := status)))
    ensures db.challenges == WithChallengeStatus(old(db.challenges), challengeId, status)
    ensures db.works == old(db.works) && db.likes == old(db.likes)
    ensures db.comments == old(db.comments) && db.applications == old(db.applications)
    ensures db.nextChallengeId == old(db.nextChallengeId)
    ensures db.nextWorkId == old(db.nextWorkId) && db.nextCommentId == old(db.nextCommentId)
  {
    var found := FindChallenge(db.challenges, challengeId);
    WithChallengeStatusKeys(db.challenges, challengeId, status, db.nextChallengeId);
    db.challenges := WithChallengeStatus(db.challenges, challengeId, status);
    if found.None? {
      return Err(Internal);
    }
    r := Ok(found.value.(status := status));
  }

  /** `deleteChallenge`: removes the row with that id and returns it. */
  method DeleteChallenge(db: Db, challengeId: int) returns (r: Result<Challenge>)
    requires db.Valid()
    modifies db
    ensures db.Valid()
    ensures r == (match FindChallenge(old(db.challenges), challengeId)
                  case None => Err(Internal)
                  case Some(c) => Ok(c))
    ensures forall c :: c in db.challenges <==> c in old(db.challenges) && c.id != challengeId
    ensures db.challenges == Filter(old(db.challenges), (c: Challenge) => c.id != challengeId)
    ensures db.works == old(db.works) && db.likes == old(db.likes)
    ensures db.comments == old(db.comments) && db.applications == old(db.applications)
    ensures db.nextChallengeId == old(db.nextChallengeId)
    ensures db.nextWorkId == old(db.nextWorkId) && db.nextCommentId == old(db.nextCommentId)
  {
    var found := FindChallenge(db.challenges, challengeId);
    var p := (c: Challenge) => c.id != challengeId;
    FilterKeysUnique(db.challenges, p, ChallengeKey);
    db.challenges := Filter(db.challenges, p);
    if found.None? {
      return Err(Internal);
    }
    r := Ok(found.value);
  }
}
