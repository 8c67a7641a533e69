/** The expiry sweep the cron job runs twice a day: every challenge still
    recruiting whose deadline has passed gets its best-liked works marked
    as selected and is closed, one transaction per challenge. */
module Scheduler {
  import opened Common
  import opened Seqs
  import opened Database

  /** The sweep's `findMany` filter. FILLED and CLOSED challenges never
      match. */
  predicate Expired(c: Challenge, now: int) {
    c.status == Recruiting && c.deadlineAt <= now
  }

  function ExpiredIds(cs: seq<Challenge>, now: int): set<int> {
    set c | c in cs && Expired(c, now) :: c.id
  }

  /** The largest likeCount among the works of a challenge, None when it
      has no works: the likeCount of `findFirst` ordered by likeCount
      descending. */
  function MaxLikes(ws: seq<Work>, challengeId: int): (r: Option<nat>)
    ensures r.None? <==> forall w :: w in ws ==> w.challengeId != challengeId
    ensures r.Some? ==> exists w :: w in ws && w.challengeId == challengeId && w.likeCount == r.value
    ensures r.Some? ==> forall w :: w in ws && w.challengeId == challengeId ==> w.likeCount <= r.value
  {
    if ws == [] then None
    else
      var rest := MaxLikes(ws[1..], challengeId);
      assert forall w :: w in ws ==> w == ws[0] || w in ws[1..];
      if ws[0].challengeId != challengeId then rest
      else match rest
        case None => Some(ws[0].likeCount)
        case Some(m) => Some(if ws[0].likeCount >= m then ws[0].likeCount else m)
  }

  /** Two work tables that agree on every row's challenge and likeCount
      have the same maxima: marking winners does not move the maximum. */
  lemma MaxLikesIgnoresSelection(a: seq<Work>, b: seq<Work>, challengeId: int)
    requires |a| == |b|
    requires forall i :: 0 <= i < |a| ==> a[i].challengeId == b[i].challengeId && a[i].likeCount == b[i].likeCount
    ensures MaxLikes(a, challengeId) == MaxLikes(b, challengeId)
  {
    MaxLikesAtMost(a, b, challengeId);
    MaxLikesAtMost(b, a, challengeId);
  }

  lemma MaxLikesAtMost(a: seq<Work>, b: seq<Work>, challengeId: int)
    requires |a| == |b|
    requires forall i :: 0 <= i < |a| ==> a[i].challengeId == b[i].challengeId && a[i].likeCount == b[i].likeCount
    ensures MaxLikes(a, challengeId).Some? ==>
              MaxLikes(b, challengeId).Some? && MaxLikes(a, challengeId).value <= MaxLikes(b, challengeId).value
  {
    var ma := MaxLikes(a, challengeId);
    if ma.Some? {
      var w :| w in a && w.challengeId == challengeId && w.likeCount == ma.value;
      var i :| 0 <= i < |a| && a[i] == w;
      var v := b[i];
      assert v in b && v.challengeId == challengeId && v.likeCount == ma.value;
    }
  }

  /** The challenge table with the challenges in `ids` closed. */
  function CloseAll(cs: seq<Challenge>, ids: set<int>): (r: seq<Challenge>)
    ensures |r| == |cs|
    ensures forall i :: 0 <= i < |cs| ==> r[i] == if cs[i].id in ids then cs[i].(status := Closed) else cs[i]
  {
    seq(|cs|, i requires 0 <= i < |cs| => if cs[i].id in ids then cs[i].(status := Closed) else cs[i])
  }

  /** The work table with the rows whose id is in `ids` selected. */
  function SelectAll(ws: seq<Work>, ids: set<int>): (r: seq<Work>)
    ensures |r| == |ws|
    ensures forall i :: 0 <= i < |ws| ==> r[i] == if ws[i].id in ids then ws[i].(isSelected := true) else ws[i]
  {
    seq(|ws|, i requires 0 <= i < |ws| => if ws[i].id in ids then ws[i].(isSelected := true) else ws[i])
  }

  /** A winner: a work of one of the challenges in `ids` with as many
      likes as the best work of its challenge. */
  predicate IsWinner(ws: seq<Work>, ids: set<int>, w: Work) {
    w.challengeId in ids && MaxLikes(ws, w.challengeId) == Some(w.likeCount)
  }

  /** The work table with the winners of the challenges in `ids` selected. */
  function SelectWinners(ws: seq<Work>, ids: set<int>): (r: seq<Work>)
    ensures |r| == |ws|
    ensures forall i :: 0 <= i < |ws| ==> r[i] == if IsWinner(ws, ids, ws[i]) then ws[i].(isSelected := true) else ws[i]
  {
    seq(|ws|, i requires 0 <= i < |ws| => if IsWinner(ws, ids, ws[i]) then ws[i].(isSelected := true) else ws[i])
  }

  /** The tables the sweep leaves behind. */
  function SweptChallenges(cs: seq<Challenge>, now: int): seq<Challenge> {
    CloseAll(cs, ExpiredIds(cs, now))
  }

  function SweptWorks(cs: seq<Challenge>, ws: seq<Work>, now: int): seq<Work> {
    SelectWinners(ws, ExpiredIds(cs, now))
  }

  // ---- what the sweep promises ----

  /** Exactly the expired challenges are closed; every other challenge,
      FILLED ones and those with a later deadline included, is unchanged. */
  lemma SweepClosesExactlyExpired(cs: seq<Challenge>, now: int, i: int)
    requires KeysUnique(cs, ChallengeKey)
    requires 0 <= i < |cs|
    ensures Expired(cs[i], now) ==> SweptChallenges(cs, now)[i] == cs[i].(status := Closed)
    ensures !Expired(cs[i], now) ==> SweptChallenges(cs, now)[i] == cs[i]
  {
    assert cs[i] in cs;
    if cs[i].id in ExpiredIds(cs, now) {
      var c :| c in cs && Expired(c, now) && c.id == cs[i].id;
      KeyDeterminesRow(cs, ChallengeKey, c, cs[i]);
    }
  }

  /** In every expired challenge, all works tied at the highest likeCount
      are selected; no other work changes, and no selection is undone. */
  lemma SweepSelectsTiedWinners(cs: seq<Challenge>, ws: seq<Work>, now: int, i: int)
    requires 0 <= i < |ws|
    ensures var after := SweptWorks(cs, ws, now)[i];
            && after.id == ws[i].id && after.challengeId == ws[i].challengeId
            && after.likeCount == ws[i].likeCount && after.content == ws[i].content
            && (ws[i].isSelected ==> after.isSelected)
    ensures (exists c :: c in cs && Expired(c, now) && c.id == ws[i].challengeId)
            && (forall w :: w in ws && w.challengeId == ws[i].challengeId ==> w.likeCount <= ws[i].likeCount)
            ==> SweptWorks(cs, ws, now)[i].isSelected
    ensures (forall c :: c in cs && Expired(c, now) ==> c.id != ws[i].challengeId)
            ==> SweptWorks(cs, ws, now)[i] == ws[i]
    ensures (exists w :: w in ws && w.challengeId == ws[i].challengeId && w.likeCount > ws[i].likeCount)
            ==> SweptWorks(cs, ws, now)[i] == ws[i]
  {
    assert ws[i] in ws;
    var m := MaxLikes(ws, ws[i].challengeId);
    assert m.Some?;
    if exists c :: c in cs && Expired(c, now) && c.id == ws[i].challengeId {
      var c :| c in cs && Expired(c, now) && c.id == ws[i].challengeId;
      assert ws[i].challengeId in ExpiredIds(cs, now);
    }
  }

  /** After a sweep no challenge is expired any more. */
  lemma NothingExpiredAfterSweep(cs: seq<Challenge>, now: int)
    ensures ExpiredIds(SweptChallenges(cs, now), now) == {}
  {
    var after := SweptChallenges(cs, now);
    forall c | c in after ensures !Expired(c, now) {
      var i :| 0 <= i < |after| && after[i] == c;
      assert cs[i] in cs;
    }
  }

  /** A second sweep with the same clock changes nothing. */
  lemma SweepIdempotent(cs: seq<Challenge>, ws: seq<Work>, now: int)
    ensures SweptChallenges(SweptChallenges(cs, now), now) == SweptChallenges(cs, now)
    ensures SweptWorks(SweptChallenges(cs, now), SweptWorks(cs, ws, now), now) == SweptWorks(cs, ws, now)
  {
    NothingExpiredAfterSweep(cs, now);
  }

  // ---- the sweep ----

  function IdsOf(ws: seq<Work>): set<int> {
    set w | w in ws :: w.id
  }

  /** The rows of `ws` that are `winners` are exactly the works of the
      challenge with `max` likes. */
  lemma WinnerIdsMatchRows(ws: seq<Work>, winners: seq<Work>, challengeId: int, max: nat, i: int)
    requires KeysUnique(ws, WorkKey)
    requires forall w :: w in winners <==> w in ws && w.challengeId == challengeId && w.likeCount == max
    requires 0 <= i < |ws|
    ensures (ws[i].id in IdsOf(winners)) <==> ws[i].challengeId == challengeId && ws[i].likeCount == max
  {
    assert ws[i] in ws;
    if ws[i].id in IdsOf(winners) {
      var w :| w in winners && w.id == ws[i].id;
      KeyDeterminesRow(ws, WorkKey, w, ws[i]);
    }
  }

  /** The `update`s of one transaction: set isSelected on the given rows,
      one row at a time. */
  method SelectWorks(db: Db, winners: seq<Work>) returns ()
    requires db.Valid()
    modifies db
    ensures db.Valid()
    ensures db.works == SelectAll(old(db.works), IdsOf(winners))
    ensures db.challenges == old(db.challenges) && db.likes == old(db.likes)
    ensures db.comments == old(db.comments) && db.applications == old(db.applications)
    ensures db.nextChallengeId == old(db.nextChallengeId) && db.nextWorkId == old(db.nextWorkId)
    ensures db.nextCommentId == old(db.nextCommentId)
  {
    ghost var ws0 := db.works;
    for k := 0 to |winners|
      invariant db.works == SelectAll(ws0, set j | 0 <= j < k :: winners[j].id)
      invariant db.challenges == old(db.challenges) && db.likes == old(db.likes)
      invariant db.comments == old(db.comments) && db.applications == old(db.applications)
      invariant db.nextChallengeId == old(db.nextChallengeId) && db.nextWorkId == old(db.nextWorkId)
      invariant db.nextCommentId == old(db.nextCommentId)
    {
      ghost var done := set j | 0 <= j < k :: winners[j].id;
      ghost var done' := set j | 0 <= j < k + 1 :: winners[j].id;
      assert done' == done + {winners[k].id};
      db.works := SelectAll(db.works, {winners[k].id});
    }
    assert (set j | 0 <= j < |winners| :: winners[j].id) == IdsOf(winners) by {
      forall w | w in winners ensures w.id in set j | 0 <= j < |winners| :: winners[j].id {
        var j :| 0 <= j < |winners| && winners[j] == w;
      }
    }
    forall x | x in db.works ensures WorkKey(x) < db.nextWorkId {
      var i :| 0 <= i < |db.works| && db.works[i] == x;
      assert ws0[i] in ws0;
    }
  }

  /** `findMany({ where: { challengeId, likeCount } })`: those of the
      challenge's works that have exactly that many likes. */
  function WorksWithLikes(ws: seq<Work>, challengeId: int, likeCount: nat): (r: seq<Work>)
    ensures forall w :: w in r <==> w in ws && w.challengeId == challengeId && w.likeCount == likeCount
  {
    Filter(WorksOf(ws, challengeId), (w: Work) => w.likeCount == likeCount)
  }

  /** Selecting the rows `findMany` returned for the top likeCount is
      selecting the challenge's winners. */
  lemma SelectingWinnerRows(ws: seq<Work>, winners: seq<Work>, challengeId: int, max: nat)
    requires KeysUnique(ws, WorkKey)
    requires MaxLikes(ws, challengeId) == Some(max)
    requires forall w :: w in winners <==> w in ws && w.challengeId == challengeId && w.likeCount == max
    ensures SelectAll(ws, IdsOf(winners)) == SelectWinners(ws, {challengeId})
  {
    forall i | 0 <= i < |ws|
      ensures SelectAll(ws, IdsOf(winners))[i] == SelectWinners(ws, {challengeId})[i]
    {
      SelectingWinnerRow(ws, winners, challengeId, max, i);
    }
  }

  /** Row i of the table comes out of both selections alike. */
  lemma SelectingWinnerRow(ws: seq<Work>, winners: seq<Work>, challengeId: int, max: nat, i: int)
    requires KeysUnique(ws, WorkKey)
    requires MaxLikes(ws, challengeId) == Some(max)
    requires forall w :: w in winners <==> w in ws && w.challengeId == challengeId && w.likeCount == max
    requires 0 <= i < |ws|
    ensures SelectAll(ws, IdsOf(winners))[i] == SelectWinners(ws, {challengeId})[i]
  {
    WinnerIdsMatchRows(ws, winners, challengeId, max, i);
    assert IsWinner(ws, {challengeId}, ws[i]) <==> ws[i].challengeId == challengeId && ws[i].likeCount == max;
  }

  /** A challenge without works has no winners. */
  lemma NoWorksNoWinners(ws: seq<Work>, challengeId: int)
    requires MaxLikes(ws, challengeId).None?
    ensures SelectWinners(ws, {challengeId}) == ws
  {
    forall i | 0 <= i < |ws| ensures SelectWinners(ws, {challengeId})[i] == ws[i] {
      assert ws[i] in ws;
    }
  }

  /** Steps 1 to 3 of one iteration: find the top likeCount of the
      challenge, fetch the works that have it and select each of them. */
  method SelectTopWorks(db: Db, challengeId: int)
    requires db.Valid()
    modifies db
    ensures db.Valid()
    ensures db.works == SelectWinners(old(db.works), {challengeId})
    ensures db.challenges == old(db.challenges)
    ensures db.likes == old(db.likes) && db.comments == old(db.comments) && db.applications == old(db.applications)
    ensures db.nextChallengeId == old(db.nextChallengeId) && db.nextWorkId == old(db.nextWorkId)
    ensures db.nextCommentId == old(db.nextCommentId)
  {
    var maxLikeWork := MaxLikes(db.works, challengeId);
    if maxLikeWork.None? {
      NoWorksNoWinners(db.works, challengeId);
      return;
    }
    var maxLikeCount := maxLikeWork.value;
    var winners := WorksWithLikes(db.works, challengeId, maxLikeCount);
    SelectingWinnerRows(db.works, winners, challengeId, maxLikeCount);
    SelectWorks(db, winners);
  }

  /** One iteration of the sweep, its own transaction: select the works
      tied at the top of the challenge, then close it. */
  method CloseChallenge(db: Db, challengeId: int)
    requires db.Valid()
    modifies db
    ensures db.Valid()
    ensures db.works == SelectWinners(old(db.works), {challengeId})
    ensures db.challenges == WithChallengeStatus(old(db.challenges), challengeId, Closed)
    ensures db.likes == old(db.likes) && db.comments == old(db.comments) && db.applications == old(db.applications)
    ensures db.nextChallengeId == old(db.nextChallengeId) && db.nextWorkId == old(db.nextWorkId)
    ensures db.nextCommentId == old(db.nextCommentId)
  {
    SelectTopWorks(db, challengeId);
    WithChallengeStatusKeys(db.challenges, challengeId, Closed, db.nextChallengeId);
    db.challenges := WithChallengeStatus(db.challenges, challengeId, Closed);
  }

  /** One step of the sweep, on the specification: closing one more
      challenge extends the closed and selected sets by its id. */
  lemma SweepStep(cs0: seq<Challenge>, ws0: seq<Work>, done: set<int>, x: int,
                  cs: seq<Challenge>, ws: seq<Work>)
    requires cs == CloseAll(cs0, done) && ws == SelectWinners(ws0, done)
    ensures WithChallengeStatus(cs, x, Closed) == CloseAll(cs0, done + {x})
    ensures SelectWinners(ws, {x}) == SelectWinners(ws0, done + {x})
  {
    MaxLikesIgnoresSelection(ws, ws0, x);
    forall i | 0 <= i < |ws0|
      ensures SelectWinners(ws, {x})[i] == SelectWinners(ws0, done + {x})[i]
    {
      MaxLikesIgnoresSelection(ws, ws0, ws0[i].challengeId);
    }
  }

  /** `closeExpiredChallenges`: reads the expired challenges once, then
      closes them one transaction at a time. */
  method CloseExpiredChallenges(db: Db, now: int)
    requires db.Valid()
    modifies db
    ensures db.Valid()
    ensures db.challenges == SweptChallenges(old(db.challenges), now)
    ensures db.works == SweptWorks(old(db.challenges), old(db.works), now)
    ensures db.likes == old(db.likes) && db.comments == old(db.comments) && db.applications == old(db.applications)
    ensures db.nextChallengeId == old(db.nextChallengeId) && db.nextWorkId == old(db.nextWorkId)
    ensures db.nextCommentId == old(db.nextCommentId)
  {
    ghost var cs0, ws0 := db.challenges, db.works;
    var challenges := Filter(db.challenges, (c: Challenge) => Expired(c, now));
    for k := 0 to |challenges|
      invariant db.Valid()
      invariant db.challenges == CloseAll(cs0, set j | 0 <= j < k :: challenges[j].id)
      invariant db.works == SelectWinners(ws0, set j | 0 <= j < k :: challenges[j].id)
      invariant db.likes == old(db.likes) && db.comments == old(db.comments) && db.applications == old(db.applications)
      invariant db.nextChallengeId == old(db.nextChallengeId) && db.nextWorkId == old(db.nextWorkId)
      invariant db.nextCommentId == old(db.nextCommentId)
    {
      ghost var done := set j | 0 <= j < k :: challenges[j].id;
      assert (set j | 0 <= j < k + 1 :: challenges[j].id) == done + {challenges[k].id};
      SweepStep(cs0, ws0, done, challenges[k].id, db.challenges, db.works);
      CloseChallenge(db, challenges[k].id);
    }
    assert (set j | 0 <= j < |challenges| :: challenges[j].id) == ExpiredIds(cs0, now) by {
      forall c | c in cs0 && Expired(c, now) ensures c.id in set j | 0 <= j < |challenges| :: challenges[j].id {
        var j :| 0 <= j < |challenges| && challenges[j] == c;
      }
      forall j | 0 <= j < |challenges| ensures challenges[j].id in ExpiredIds(cs0, now) {
        assert challenges[j] in challenges;
      }
    }
  }
}
