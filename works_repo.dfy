/** The Work table's repository: counting queries, the plain and the ranked
    listings of a challenge's works, and insert, update and delete by id. */
module WorksRepo {
  import opened Common
  import opened Seqs
  import opened Database
  import Ordering

  datatype RankedWork = RankedWork(work: Work, rank: int)

  // ---- counting queries ----

  /** Works in `ws` with strictly more likes than `likes`
      (the `likeCount: { gt }` count of the ranking query). */
  function HigherCount(ws: seq<Work>, likes: int): nat
  {
    if ws == [] then 0
    else (if ws[0].likeCount > likes then 1 else 0) + HigherCount(ws[1..], likes)
  }

  lemma {:induction false} HigherCountAppend(a: seq<Work>, b: seq<Work>, likes: int)
    ensures HigherCount(a + b, likes) == HigherCount(a, likes) + HigherCount(b, likes)
  {
    if a == [] {
      assert a + b == b;
    } else {
      assert (a + b)[1..] == a[1..] + b;
      HigherCountAppend(a[1..], b, likes);
    }
  }

  lemma {:induction false} HigherCountAll(ws: seq<Work>, likes: int)
    requires forall w :: w in ws ==> w.likeCount > likes
    ensures HigherCount(ws, likes) == |ws|
  {
    if ws != [] {
      HigherCountAll(ws[1..], likes);
    }
  }

  lemma {:induction false} HigherCountNone(ws: seq<Work>, likes: int)
    requires forall w :: w in ws ==> w.likeCount <= likes
    ensures HigherCount(ws, likes) == 0
  {
    if ws != [] {
      HigherCountNone(ws[1..], likes);
    }
  }

  /** Taking one row out of the listing takes its share out of the count. */
  lemma HigherCountRemoveAt(b: seq<Work>, k: nat, likes: int)
    requires k < |b|
    ensures HigherCount(b, likes)
      == HigherCount(b[..k] + b[k + 1..], likes) + (if b[k].likeCount > likes then 1 else 0)
  {
    assert b == (b[..k] + [b[k]]) + b[k + 1..];
    HigherCountAppend(b[..k] + [b[k]], b[k + 1..], likes);
    HigherCountAppend(b[..k], [b[k]], likes);
    HigherCountAppend(b[..k], b[k + 1..], likes);
  }

  lemma RemoveAtMultiset<T>(b: seq<T>, k: nat)
    requires k < |b|
    ensures multiset(b[..k] + b[k + 1..]) == multiset(b) - multiset{b[k]}
  {
    assert b == b[..k] + [b[k]] + b[k + 1..];
  }

  /** The count does not depend on the order the rows are visited in. */
  lemma {:induction false} HigherCountPermutation(a: seq<Work>, b: seq<Work>, likes: int)
    requires multiset(a) == multiset(b)
    ensures HigherCount(a, likes) == HigherCount(b, likes)
    decreases |a|
  {
    if a == [] {
      assert |b| == |multiset(b)| == 0;
    } else {
      var x := a[0];
      assert x in multiset(b);
      var k :| 0 <= k < |b| && b[k] == x;
      RemoveAtMultiset(b, k);
      assert a == [x] + a[1..];
      assert multiset(a[1..]) == multiset(a) - multiset{x};
      HigherCountPermutation(a[1..], b[..k] + b[k + 1..], likes);
      HigherCountRemoveAt(b, k, likes);
    }
  }

  /** Fewer likes never means fewer works ahead. */
  lemma {:induction false} HigherCountAntitone(ws: seq<Work>, lower: int, upper: int)
    requires lower <= upper
    ensures HigherCount(ws, upper) <= HigherCount(ws, lower)
  {
    if ws != [] {
      HigherCountAntitone(ws[1..], lower, upper);
    }
  }

  /** `countWorksByChallengeId` */
  function CountWorksByChallengeId(ws: seq<Work>, challengeId: int): (n: nat)
    ensures n <= |ws|
    ensures n == 0 <==> forall w :: w in ws ==> w.challengeId != challengeId
  {
    var r := WorksOf(ws, challengeId);
    assert r != [] ==> r[0] in r;
    |r|
  }

  /** `countWorksByWorkerId`: every work the user has submitted. */
  function CountWorksByWorkerId(ws: seq<Work>, workerId: int): (n: nat)
    ensures n <= |ws|
    ensures n == 0 <==> forall w :: w in ws ==> w.workerId != workerId
  {
    var r := Filter(ws, (w: Work) => w.workerId == workerId);
    assert r != [] ==> r[0] in r;
    |r|
  }

  /** `findSelectedWorksCountByWorkerId`: the user's works marked as winners. */
  function FindSelectedWorksCountByWorkerId(ws: seq<Work>, workerId: int): (n: nat)
    ensures n <= |ws|
    ensures n == 0 <==> forall w :: w in ws ==> !(w.workerId == workerId && w.isSelected)
  {
    var r := Filter(ws, (w: Work) => w.workerId == workerId && w.isSelected);
    assert r != [] ==> r[0] in r;
    |r|
  }

  /** Each count goes up by one for an appended row that matches its
      `where` and stays put otherwise; with the empty table counting zero,
      this fixes every count as the number of matching rows. */
  lemma CountWorksByChallengeIdAppend(ws: seq<Work>, w: Work, challengeId: int)
    ensures CountWorksByChallengeId([], challengeId) == 0
    ensures CountWorksByChallengeId(ws + [w], challengeId)
            == CountWorksByChallengeId(ws, challengeId) + (if w.challengeId == challengeId then 1 else 0)
  {
    FilterAppend(ws, w, (x: Work) => x.challengeId == challengeId);
  }

  lemma CountWorksByWorkerIdAppend(ws: seq<Work>, w: Work, workerId: int)
    ensures CountWorksByWorkerId([], workerId) == 0
    ensures CountWorksByWorkerId(ws + [w], workerId)
            == CountWorksByWorkerId(ws, workerId) + (if w.workerId == workerId then 1 else 0)
  {
    FilterAppend(ws, w, (x: Work) => x.workerId == workerId);
  }

  lemma FindSelectedWorksCountByWorkerIdAppend(ws: seq<Work>, w: Work, workerId: int)
    ensures FindSelectedWorksCountByWorkerId([], workerId) == 0
    ensures FindSelectedWorksCountByWorkerId(ws + [w], workerId)
            == FindSelectedWorksCountByWorkerId(ws, workerId) + (if w.workerId == workerId && w.isSelected then 1 else 0)
  {
    FilterAppend(ws, w, (x: Work) => x.workerId == workerId && x.isSelected);
  }

  lemma {:induction false} SelectedCountAtMostParticipation(ws: seq<Work>, workerId: int)
    ensures FindSelectedWorksCountByWorkerId(ws, workerId) <= CountWorksByWorkerId(ws, workerId)
  {
    if ws != [] {
      var init := ws[..|ws| - 1];
      SelectedCountAtMostParticipation(init, workerId);
      assert ws == init + [ws[|ws| - 1]];
      FilterAppend(init, ws[|ws| - 1], (w: Work) => w.workerId == workerId && w.isSelected);
      FilterAppend(init, ws[|ws| - 1], (w: Work) => w.workerId == workerId);
    }
  }

  // ---- listings ----

  /** `orderBy: [{ likeCount: 'desc' }]` with no further key. */
  function MoreLikedBefore(a: Work, b: Work): bool {
    a.likeCount >= b.likeCount
  }

  /** The `where` of `findWorksListByChallengeId`: the challenge, and the
      worker when `whereOptions` names one (the only option the services pass). */
  function ListedWorks(ws: seq<Work>, challengeId: int, workerId: Option<int>): (r: seq<Work>)
    ensures forall w :: w in r <==> w in ws && w.challengeId == challengeId && (workerId.None? || w.workerId == workerId.value)
  {
    Filter(ws, (w: Work) => w.challengeId == challengeId && (workerId.None? || w.workerId == workerId.value))
  }

  lemma MoreLikedIsPreorder()
    ensures Ordering.Total(MoreLikedBefore) && Ordering.Transitive(MoreLikedBefore)
  {
  }

  /** The listed works, most liked first; equal counts keep table order. */
  function OrderedListedWorks(ws: seq<Work>, challengeId: int, workerId: Option<int>): (r: seq<Work>)
    ensures Ordering.Sorted(r, MoreLikedBefore)
    ensures multiset(r) == multiset(ListedWorks(ws, challengeId, workerId))
    ensures |r| == |ListedWorks(ws, challengeId, workerId)|
    ensures forall w :: w in r <==> w in ws && w.challengeId == challengeId && (workerId.None? || w.workerId == workerId.value)
  {
    var matching := ListedWorks(ws, challengeId, workerId);
    MoreLikedIsPreorder();
    Ordering.SortSorted(matching, MoreLikedBefore);
    Ordering.SortLength(matching, MoreLikedBefore);
    Ordering.SortMembers(matching, MoreLikedBefore);
    var r := Ordering.Sort(matching, MoreLikedBefore);
    r
  }

  /** The offset a `skip` option stands for: none means from the start. */
  function Offset(skip: Option<nat>): nat {
    if skip.Some? then skip.value else 0
  }

  /** The number of rows a `take` option asks for: none means all. */
  function Limit(take: Option<nat>, total: nat): nat {
    if take.Some? then take.value else total
  }

  /** `findWorksListByChallengeId`: the count of the matching works and the
      rows at positions `skip` to `skip + take` of them, most liked first;
      an absent skip or take means no limit. */
  function FindWorksListByChallengeId(
    ws: seq<Work>, challengeId: int, workerId: Option<int>, skip: Option<nat>, take: Option<nat>)
    : (r: (nat, seq<Work>))
    ensures r.0 == |ListedWorks(ws, challengeId, workerId)|
    ensures |r.1| == (if Offset(skip) >= r.0 then 0 else Min(Limit(take, r.0), r.0 - Offset(skip)))
    ensures forall i :: 0 <= i < |r.1| ==>
              Offset(skip) + i < r.0 && r.1[i] == OrderedListedWorks(ws, challengeId, workerId)[Offset(skip) + i]
    ensures Ordering.Sorted(r.1, MoreLikedBefore)
    ensures take.Some? ==> |r.1| <= take.value
    ensures forall w :: w in r.1 ==> w in ws && w.challengeId == challengeId
    ensures workerId.Some? ==> forall w :: w in r.1 ==> w.workerId == workerId.value
    ensures skip.None? && take.None? ==> |r.1| == r.0
  {
    var ordered := OrderedListedWorks(ws, challengeId, workerId);
    var page := Page(ordered, Offset(skip), Limit(take, |ordered|));
    PageMembers(ordered, Offset(skip), Limit(take, |ordered|));
    Ordering.PageSorted(ordered, MoreLikedBefore, Offset(skip), Limit(take, |ordered|));
    (|ordered|, page)
  }

  // ---- the ranked listing ----

  /** The ranks the source's `map` callback hands out over a fetched page:
      the first row gets `first`, a row with as many likes as its
      predecessor gets the predecessor's rank, and a row after a drop in
      likes gets its position in the whole list, `skip + index + 1`. */
  function PageRanks(page: seq<Work>, skip: nat, first: int): (r: seq<int>)
    ensures |r| == |page|
  {
    if page == [] then []
    else
      var n := |page|;
      var prev := PageRanks(page[..n - 1], skip, first);
      prev + [if n == 1 then first
              else if page[n - 1].likeCount < page[n - 2].likeCount then skip + n
              else prev[n - 2]]
  }

  lemma {:induction false} PageRanksPrefix(page: seq<Work>, skip: nat, first: int, m: nat)
    requires m <= |page|
    ensures PageRanks(page[..m], skip, first) == PageRanks(page, skip, first)[..m]
    decreases |page|
  {
    if m < |page| {
      var n := |page|;
      assert page[..n - 1][..m] == page[..m];
      PageRanksPrefix(page[..n - 1], skip, first, m);
    } else {
      assert page[..m] == page;
    }
  }

  /** The three rules of the callback, row by row. */
  lemma PageRanksStep(page: seq<Work>, skip: nat, first: int, i: nat)
    requires i < |page|
    ensures PageRanks(page, skip, first)[i] ==
      if i == 0 then first
      else if page[i].likeCount < page[i - 1].likeCount then skip + i + 1
      else PageRanks(page, skip, first)[i - 1]
  {
    PageRanksPrefix(page, skip, first, i + 1);
    assert page[..i + 1][..i] == page[..i];
    PageRanksPrefix(page, skip, first, i);
  }

  /** The ranking of a whole list fetched from its start. */
  function FullRanking(all: seq<Work>): (r: seq<int>)
    ensures |r| == |all|
  {
    PageRanks(all, 0, 1)
  }

  /** After a drop in likes at position k of the standings, exactly the k
      works in front of it have more likes. */
  lemma HigherCountAtDrop(all: seq<Work>, k: nat)
    requires Ordering.Sorted(all, StandingBefore)
    requires 0 < k < |all| && all[k].likeCount < all[k - 1].likeCount
    ensures HigherCount(all, all[k].likeCount) == k
  {
    var v := all[k].likeCount;
    assert all == all[..k] + all[k..];
    HigherCountAppend(all[..k], all[k..], v);
    AboveDropHigher(all, k);
    HigherCountAll(all[..k], v);
    FromDropNotHigher(all, k);
    HigherCountNone(all[k..], v);
  }

  /** In the standings, every work in front of a drop has more likes than
      the work at the drop. */
  lemma AboveDropHigher(all: seq<Work>, k: nat)
    requires Ordering.Sorted(all, StandingBefore)
    requires 0 < k < |all| && all[k].likeCount < all[k - 1].likeCount
    ensures forall w :: w in all[..k] ==> w.likeCount > all[k].likeCount
  {
    forall w | w in all[..k] ensures w.likeCount > all[k].likeCount {
      var j :| 0 <= j < k && all[j] == w;
      if j < k - 1 {
        assert StandingBefore(all[j], all[k - 1]);
      }
    }
  }

  /** In the standings, no work from position k on has more likes than
      the work at k. */
  lemma FromDropNotHigher(all: seq<Work>, k: nat)
    requires Ordering.Sorted(all, StandingBefore)
    requires k < |all|
    ensures forall w :: w in all[k..] ==> w.likeCount <= all[k].likeCount
  {
    forall w | w in all[k..] ensures w.likeCount <= all[k].likeCount {
      var j :| k <= j < |all| && all[j] == w;
      if j > k {
        assert StandingBefore(all[k], all[j]);
      }
    }
  }

  /** Given the standings order, the callback gives row i of a page the
      standard competition rank: one more than the number of works with
      strictly more likes. */
  lemma {:induction false} PageRankIsCompetitionRank(all: seq<Work>, skip: nat, page: seq<Work>, first: int, i: nat)
    requires Ordering.Sorted(all, StandingBefore)
    requires skip + |page| <= |all| && page == all[skip .. skip + |page|]
    requires page != [] ==> first == 1 + HigherCount(all, page[0].likeCount)
    requires i < |page|
    ensures PageRanks(page, skip, first)[i] == 1 + HigherCount(all, page[i].likeCount)
  {
    PageRanksStep(page, skip, first, i);
    if i > 0 {
      PageRankIsCompetitionRank(all, skip, page, first, i - 1);
      assert page[i] == all[skip + i] && page[i - 1] == all[skip + i - 1];
      assert StandingBefore(all[skip + i - 1], all[skip + i]);
      if page[i].likeCount < page[i - 1].likeCount {
        HigherCountAtDrop(all, skip + i);
      }
    }
  }

  /** The whole-list ranking is the standard competition ranking. */
  lemma FullRankingIsCompetitionRank(all: seq<Work>, i: nat)
    requires Ordering.Sorted(all, StandingBefore)
    requires i < |all|
    ensures FullRanking(all)[i] == 1 + HigherCount(all, all[i].likeCount)
  {
    forall w | w in all ensures w.likeCount <= all[0].likeCount {
      var j :| 0 <= j < |all| && all[j] == w;
      if j > 0 {
        assert StandingBefore(all[0], all[j]);
      }
    }
    HigherCountNone(all, all[0].likeCount);
    assert all[0 .. |all|] == all;
    PageRankIsCompetitionRank(all, 0, all, 1, i);
  }

  /** Pagination is transparent: the ranks of any page, started from
      `1 + #works with more likes than its first row`, are the matching
      slice of the ranking of the whole list. */
  lemma PageRanksAreSliceOfFullRanking(all: seq<Work>, skip: nat, take: nat)
    requires Ordering.Sorted(all, StandingBefore)
    requires skip < |all|
    ensures var page := Page(all, skip, take);
            page != [] ==>
            PageRanks(page, skip, 1 + HigherCount(all, page[0].likeCount))
              == FullRanking(all)[skip .. skip + |page|]
  {
    var page := Page(all, skip, take);
    if page != [] {
      assert page == all[skip .. skip + |page|];
      var first := 1 + HigherCount(all, page[0].likeCount);
      var ranks := PageRanks(page, skip, first);
      var slice := FullRanking(all)[skip .. skip + |page|];
      forall i | 0 <= i < |page| ensures ranks[i] == slice[i] {
        PageRankIsCompetitionRank(all, skip, page, first, i);
        FullRankingIsCompetitionRank(all, skip + i);
      }
      assert ranks == slice;
    }
  }

  /** The worked example of the standings: likes 5,5,3,3,3,1 rank
      1,1,3,3,3,6, and the second page of three starts again at rank 3. */
  lemma StandingsExample(a: Work, b: Work, c: Work, d: Work, e: Work, f: Work)
    requires a.likeCount == 5 && b.likeCount == 5
    requires c.likeCount == 3 && d.likeCount == 3 && e.likeCount == 3
    requires f.likeCount == 1
    ensures FullRanking([a, b, c, d, e, f]) == [1, 1, 3, 3, 3, 6]
    ensures PageRanks([d, e, f], 3, 1 + HigherCount([a, b, c, d, e, f], d.likeCount)) == [3, 3, 6]
  {
    FullRankingExample(a, b, c, d, e, f);
    HigherCountExample(a, b, c, d, e, f);
    PageRanksExample(d, e, f);
  }

  lemma FullRankingExample(a: Work, b: Work, c: Work, d: Work, e: Work, f: Work)
    requires a.likeCount == 5 && b.likeCount == 5
    requires c.likeCount == 3 && d.likeCount == 3 && e.likeCount == 3
    requires f.likeCount == 1
    ensures FullRanking([a, b, c, d, e, f]) == [1, 1, 3, 3, 3, 6]
  {
    var all := [a, b, c, d, e, f];
    forall i | 0 <= i < 6 ensures FullRanking(all)[i] == [1, 1, 3, 3, 3, 6][i] {
      PageRanksStep(all, 0, 1, i);
      if i > 0 { PageRanksStep(all, 0, 1, i - 1); }
      if i > 1 { PageRanksStep(all, 0, 1, i - 2); }
    }
  }

  lemma HigherCountExample(a: Work, b: Work, c: Work, d: Work, e: Work, f: Work)
    requires a.likeCount == 5 && b.likeCount == 5
    requires c.likeCount == 3 && d.likeCount == 3 && e.likeCount == 3
    requires f.likeCount == 1
    ensures HigherCount([a, b, c, d, e, f], 3) == 2
  {
    var all := [a, b, c, d, e, f];
    assert all[1..] == [b, c, d, e, f] && all[1..][1..] == [c, d, e, f];
    assert [c, d, e, f][1..] == [d, e, f] && [d, e, f][1..] == [e, f] && [e, f][1..] == [f];
    assert HigherCount([f], 3) == 0;
    assert HigherCount([e, f], 3) == 0;
    assert HigherCount([d, e, f], 3) == 0;
    assert HigherCount([c, d, e, f], 3) == 0;
    assert HigherCount([b, c, d, e, f], 3) == 1;
  }

  lemma PageRanksExample(d: Work, e: Work, f: Work)
    requires d.likeCount == 3 && e.likeCount == 3 && f.likeCount == 1
    ensures PageRanks([d, e, f], 3, 3) == [3, 3, 6]
  {
    var page := [d, e, f];
    forall i | 0 <= i < 3 ensures PageRanks(page, 3, 3)[i] == [3, 3, 6][i] {
      PageRanksStep(page, 3, 3, i);
      if i > 0 { PageRanksStep(page, 3, 3, i - 1); }
    }
  }

  /** The `map` over the fetched page, as a loop over an array that carries
      `currentRank` from row to row. */
  method RankPage(works: seq<Work>, skip: nat, higherRankersCount: nat) returns (ranked: seq<RankedWork>)
    ensures |ranked| == |works|
    ensures forall i :: 0 <= i < |works| ==> ranked[i].work == works[i]
    ensures forall i :: 0 <= i < |works| ==> ranked[i].rank == PageRanks(works, skip, higherRankersCount + 1)[i]
  {
    var ranks := new int[|works|];
    var currentRank := higherRankersCount + 1;
    ghost var expected := PageRanks(works, skip, higherRankersCount + 1);
    for index := 0 to |works|
      invariant index == 0 ==> currentRank == higherRankersCount + 1
      invariant index > 0 ==> currentRank == expected[index - 1]
      invariant forall k :: 0 <= k < index ==> ranks[k] == expected[k]
    {
      PageRanksStep(works, skip, higherRankersCount + 1, index);
      var isScoreDropped := index > 0 && works[index].likeCount < works[index - 1].likeCount;
      if isScoreDropped {
        currentRank := skip + index + 1;
      }
      ranks[index] := currentRank;
    }
    ranked := seq(|works|, i requires 0 <= i < |works| reads ranks => RankedWork(works[i], ranks[i]));
  }

  /** `ranked` lists the rows of the sorted listing `all` from position
      `skip` on, each with its competition rank among `matching` (one more
      than the number of works with strictly more likes), which is also the
      whole ranking's entry at that position; ranks never decrease. */
  ghost predicate IsRankedSlice(matching: seq<Work>, all: seq<Work>, skip: int, ranked: seq<RankedWork>) {
    && (forall i :: 0 <= i < |ranked| ==> 0 <= skip + i < |all| && ranked[i].work == all[skip + i])
    && (forall i :: 0 <= i < |ranked| ==>
          ranked[i].rank == 1 + HigherCount(matching, ranked[i].work.likeCount))
    && (forall i :: 0 <= i < |ranked| ==>
          0 <= skip + i < |all| && ranked[i].rank == FullRanking(all)[skip + i])
    && (forall i, j :: 0 <= i <= j < |ranked| ==> ranked[i].rank <= ranked[j].rank)
  }

  /** `findWorksListWithRankByChallengeId`: the number of works in the
      challenge and one page of its standings, each with its rank. */
  method FindWorksListWithRankByChallengeId(db: Db, challengeId: int, skip: nat, take: nat)
    returns (totalCount: nat, rankedWorks: seq<RankedWork>)
    ensures totalCount == |WorksOf(db.works, challengeId)|
    ensures |rankedWorks| <= take
    ensures |rankedWorks| == |Page(Standings(db.works, challengeId), skip, take)|
    ensures IsRankedSlice(WorksOf(db.works, challengeId), Standings(db.works, challengeId), skip, rankedWorks)
  {
    var matching := WorksOf(db.works, challengeId);
    var all := Standings(db.works, challengeId);
    totalCount := |matching|;
    var works := Page(all, skip, take);
    if |works| == 0 {
      return totalCount, [];
    }
    assert works == all[skip .. skip + |works|];
    var higherRankersCount := HigherCount(matching, works[0].likeCount);
    rankedWorks := RankPage(works, skip, higherRankersCount);
    RankedStandingsPage(matching, all, skip, works, rankedWorks);
  }

  /** A non-empty page of a sorted listing, ranked from one more than the
      number of works with more likes than its first row: every row is the
      listing's row at its position and has its competition rank, which is
      the whole ranking's entry there, and ranks never decrease. */
  lemma RankedStandingsPage(matching: seq<Work>, all: seq<Work>, skip: nat, works: seq<Work>, ranked: seq<RankedWork>)
    requires Ordering.Sorted(all, StandingBefore) && multiset(all) == multiset(matching)
    requires works != [] && skip + |works| <= |all| && works == all[skip .. skip + |works|]
    requires |ranked| == |works|
    requires forall i :: 0 <= i < |ranked| ==> ranked[i].work == works[i]
    requires forall i :: 0 <= i < |ranked| ==>
               ranked[i].rank == PageRanks(works, skip, 1 + HigherCount(matching, works[0].likeCount))[i]
    ensures IsRankedSlice(matching, all, skip, ranked)
  {
    forall i | 0 <= i < |ranked|
      ensures 0 <= skip + i < |all| && ranked[i].work == all[skip + i]
      ensures ranked[i].rank == 1 + HigherCount(matching, ranked[i].work.likeCount)
      ensures ranked[i].rank == FullRanking(all)[skip + i]
    {
      StandingsPageRank(matching, all, skip, works, i);
    }
    forall i, j | 0 <= i <= j < |ranked| ensures ranked[i].rank <= ranked[j].rank {
      StandingsPageMonotone(matching, all, skip, works, i, j);
    }
  }

  /** Row i of a page of a sorted listing gets its competition rank among
      the rows the listing was sorted from. */
  lemma StandingsPageRank(matching: seq<Work>, all: seq<Work>, skip: nat, works: seq<Work>, i: nat)
    requires Ordering.Sorted(all, StandingBefore) && multiset(all) == multiset(matching)
    requires skip + |works| <= |all| && works == all[skip .. skip + |works|]
    requires i < |works|
    ensures var ranks := PageRanks(works, skip, 1 + HigherCount(matching, works[0].likeCount));
            ranks[i] == 1 + HigherCount(matching, works[i].likeCount) &&
            ranks[i] == FullRanking(all)[skip + i]
  {
    HigherCountPermutation(matching, all, works[0].likeCount);
    HigherCountPermutation(matching, all, works[i].likeCount);
    PageRankIsCompetitionRank(all, skip, works, 1 + HigherCount(all, works[0].likeCount), i);
    FullRankingIsCompetitionRank(all, skip + i);
  }

  lemma StandingsPageMonotone(matching: seq<Work>, all: seq<Work>, skip: nat, works: seq<Work>, i: nat, j: nat)
    requires Ordering.Sorted(all, StandingBefore)
    requires skip + |works| <= |all| && works == all[skip .. skip + |works|]
    requires i <= j < |works|
    ensures HigherCount(matching, works[i].likeCount) <= HigherCount(matching, works[j].likeCount)
  {
    if i < j {
      assert StandingBefore(all[skip + i], all[skip + j]);
    }
    HigherCountAntitone(matching, works[j].likeCount, works[i].likeCount);
  }

  // ---- writes ----

  /** `createWork`: inserts a work with the table's defaults (no likes, not
      selected) and the next id. */
  method CreateWork(db: Db, challengeId: int, workerId: int, content: string, now: int) returns (newWork: Work)
    requires db.Valid()
    modifies db
    ensures db.Valid()
    ensures newWork == Work(old(db.nextWorkId), challengeId, workerId, content, 0, false, now, None)
    ensures db.works == old(db.works) + [newWork]
    ensures db.nextWorkId == old(db.nextWorkId) + 1
    ensures db.challenges == old(db.challenges) && db.likes == old(db.likes)
    ensures db.comments == old(db.comments) && db.applications == old(db.applications)
    ensures db.nextChallengeId == old(db.nextChallengeId) && db.nextCommentId == old(db.nextCommentId)
  {
    newWork := Work(db.nextWorkId, challengeId, workerId, content, 0, false, now, None);
    db.works := db.works + [newWork];
    db.nextWorkId := db.nextWorkId + 1;
  }

  /** The table after `updateWork` writes content and editedAt of one row. */
  function WithContent(ws: seq<Work>, workId: int, content: string, editedAt: int): (r: seq<Work>)
    ensures |r| == |ws|
    ensures forall i :: 0 <= i < |ws| ==>
              r[i] == if ws[i].id == workId then ws[i].(content := content, editedAt := Some(editedAt)) else ws[i]
  {
    seq(|ws|, i requires 0 <= i < |ws| =>
      if ws[i].id == workId then ws[i].(content := content, editedAt := Some(editedAt)) else ws[i])
  }

  /** `updateWork`: the services only ever write content and editedAt. A
      missing id is Prisma's "record to update not found". */
  method UpdateWork(db: Db, workId: int, content: string, editedAt: int) returns (r: Result<Work>)
    requires db.Valid()
    modifies db
    ensures db.Valid()
    ensures FindWork(old(db.works), workId).None? ==> r == Err(Internal) && db.works == old(db.works)
    ensures FindWork(old(db.works), workId).Some? ==>
              r == Ok(FindWork(old(db.works), workId).value.(content := content, editedAt := Some(editedAt)))
    ensures |db.works| == |old(db.works)|
    ensures forall i :: 0 <= i < |db.works| ==>
              db.works[i] == if old(db.works)[i].id == workId
                             then old(db.works)[i].(content := content, editedAt := Some(editedAt))
                             else old(db.works)[i]
    ensures db.challenges == old(db.challenges) && db.likes == old(db.likes)
    ensures db.comments == old(db.comments) && db.applications == old(db.applications)
    ensures db.nextWorkId == old(db.nextWorkId)
    ensures db.nextChallengeId == old(db.nextChallengeId) && db.nextCommentId == old(db.nextCommentId)
  {
    var found := FindWork(db.works, workId);
    if found.None? {
      assert WithContent(db.works, workId, content, editedAt) == db.works;
      return Err(Internal);
    }
    var before := db.works;
    db.works := WithContent(db.works, workId, content, editedAt);
    r := Ok(found.value.(content := content, editedAt := Some(editedAt)));
    forall x | x in db.works ensures WorkKey(x) < db.nextWorkId {
      var i :| 0 <= i < |db.works| && db.works[i] == x;
      assert before[i] in before;
    }
  }

  /** `deleteWork`: removes the row with that id and returns it. */
  method DeleteWork(db: Db, workId: int) returns (r: Result<Work>)
    requires db.Valid()
    modifies db
    ensures db.Valid()
    ensures r == (match FindWork(old(db.works), workId)
                  case None => Err(Internal)
                  case Some(w) => Ok(w))
    ensures db.works == Filter(old(db.works), (w: Work) => w.id != workId)
    ensures forall w :: w in db.works <==> w in old(db.works) && w.id != workId
    ensures db.challenges == old(db.challenges) && db.likes == old(db.likes)
    ensures db.comments == old(db.comments) && db.applications == old(db.applications)
    ensures db.nextWorkId == old(db.nextWorkId)
    ensures db.nextChallengeId == old(db.nextChallengeId) && db.nextCommentId == old(db.nextCommentId)
  {
    var found := FindWork(db.works, workId);
    var p := (w: Work) => w.id != workId;
    if found.None? {
      FilterSame(db.works, p, (w: Work) => true);
      assert Filter(db.works, (w: Work) => true) == db.works by {
        FilterAllTrue(db.works);
      }
      return Err(Internal);
    }
    FilterKeysUnique(db.works, p, WorkKey);
    db.works := Filter(db.works, p);
    r := Ok(found.value);
  }

  lemma {:induction false} FilterAllTrue(ws: seq<Work>)
    ensures Filter(ws, (w: Work) => true) == ws
  {
    if ws != [] {
      FilterAllTrue(ws[..|ws| - 1]);
    }
  }
}
