/** Sequence helpers that stand for the database's `where`, `findFirst`,
    `skip`/`take` and primary-key machinery. */
module Seqs {
  import opened Common

  /** The rows of `s` that satisfy `p`, in table order (a `where` clause). */
  function Filter<T(!new)>(s: seq<T>, p: T -> bool): (r: seq<T>)
    ensures |r| <= |s|
    ensures forall x :: x in r <==> x in s && p(x)
  {
    if s == [] then []
    else Filter(s[..|s| - 1], p) + (if p(s[|s| - 1]) then [s[|s| - 1]] else [])
  }

  lemma FilterAppend<T(!new)>(s: seq<T>, x: T, p: T -> bool)
    ensures Filter(s + [x], p) == Filter(s, p) + (if p(x) then [x] else [])
  {
    assert (s + [x])[..|s|] == s;
  }

  lemma {:induction false} FilterNone<T(!new)>(s: seq<T>, p: T -> bool)
    requires forall x :: x in s ==> !p(x)
    ensures Filter(s, p) == []
  {
    if s != [] {
      FilterNone(s[..|s| - 1], p);
    }
  }

  /** Two predicates that agree on every row of `s` select the same rows. */
  lemma {:induction false} FilterSame<T(!new)>(s: seq<T>, p: T -> bool, q: T -> bool)
    requires forall x :: x in s ==> p(x) == q(x)
    ensures Filter(s, p) == Filter(s, q)
  {
    if s != [] {
      FilterSame(s[..|s| - 1], p, q);
    }
  }

  /** The first row of `s` that satisfies `p` (a `findUnique` / `findFirst`). */
  function First<T(!new)>(s: seq<T>, p: T -> bool): (r: Option<T>)
    ensures r.Some? ==> r.value in s && p(r.value)
    ensures r.None? ==> forall x :: x in s ==> !p(x)
  {
    if s == [] then None
    else if p(s[0]) then Some(s[0])
    else First(s[1..], p)
  }

  /** A primary key: no two rows of `s` share a key. */
  ghost predicate KeysUnique<T>(s: seq<T>, key: T -> int) {
    forall i, j :: 0 <= i < j < |s| ==> key(s[i]) != key(s[j])
  }

  /** Every key of `s` is below the next value of the id sequence. */
  ghost predicate KeysBelow<T(!new)>(s: seq<T>, key: T -> int, bound: int) {
    forall x :: x in s ==> key(x) < bound
  }

  /** Deleting rows keeps the primary key. */
  lemma {:induction false} FilterKeysUnique<T(!new)>(s: seq<T>, p: T -> bool, key: T -> int)
    requires KeysUnique(s, key)
    ensures KeysUnique(Filter(s, p), key)
  {
    if s != [] {
      var init := s[..|s| - 1];
      assert KeysUnique(init, key);
      FilterKeysUnique(init, p, key);
      var last := s[|s| - 1];
      forall x | x in Filter(init, p) ensures key(x) != key(last) {
        var i :| 0 <= i < |init| && init[i] == x;
        assert s[i] == x;
      }
    }
  }

  /** Under a primary key, a row whose key is `k` is the only such row. */
  lemma KeyDeterminesRow<T>(s: seq<T>, key: T -> int, x: T, y: T)
    requires KeysUnique(s, key)
    requires x in s && y in s && key(x) == key(y)
    ensures x == y
  {
    var i :| 0 <= i < |s| && s[i] == x;
    var j :| 0 <= j < |s| && s[j] == y;
  }

  /** Under a primary key a row occurs at most once. */
  lemma {:induction false} KeysUniqueCountsOnce<T>(s: seq<T>, key: T -> int, x: T)
    requires KeysUnique(s, key)
    ensures multiset(s)[x] <= 1
  {
    if s != [] {
      var rest := s[1..];
      assert s == [s[0]] + rest;
      assert KeysUnique(rest, key) by {
        forall i, j | 0 <= i < j < |rest| ensures key(rest[i]) != key(rest[j]) {
          assert rest[i] == s[i + 1] && rest[j] == s[j + 1];
        }
      }
      KeysUniqueCountsOnce(rest, key, x);
      if s[0] == x {
        forall k | 0 <= k < |rest| ensures rest[k] != x {
          assert key(s[0]) != key(s[k + 1]);
        }
        assert x !in rest;
      }
    }
  }

  /** A row found at two positions occurs at least twice. */
  lemma OccursTwice<T>(s: seq<T>, i: nat, j: nat)
    requires i < j < |s| && s[i] == s[j]
    ensures multiset(s)[s[i]] >= 2
  {
    assert s == s[..i] + [s[i]] + s[i + 1 .. j] + [s[j]] + s[j + 1..];
  }

  /** Reordering rows keeps the primary key. */
  lemma PermutationKeysUnique<T>(a: seq<T>, b: seq<T>, key: T -> int)
    requires multiset(a) == multiset(b) && KeysUnique(a, key)
    ensures KeysUnique(b, key)
  {
    forall i, j | 0 <= i < j < |b| ensures key(b[i]) != key(b[j]) {
      if key(b[i]) == key(b[j]) {
        assert b[i] in multiset(a) && b[j] in multiset(a);
        KeyDeterminesRow(a, key, b[i], b[j]);
        OccursTwice(b, i, j);
        KeysUniqueCountsOnce(a, key, b[i]);
      }
    }
  }

  function Min(a: int, b: int): int {
    if a <= b then a else b
  }

  /** Prisma's `skip`/`take`: the rows at positions skip .. skip+take-1 that exist. */
  function Page<T>(s: seq<T>, skip: nat, take: nat): (r: seq<T>)
    ensures |r| <= take
    ensures |r| == if skip >= |s| then 0 else Min(take, |s| - skip)
    ensures forall i :: 0 <= i < |r| ==> skip + i < |s| && r[i] == s[skip + i]
  {
    if skip >= |s| then [] else s[skip .. skip + Min(take, |s| - skip)]
  }

  /** Every row of a page is a row of the listing. */
  lemma PageMembers<T>(s: seq<T>, skip: nat, take: nat)
    ensures forall x :: x in Page(s, skip, take) ==> x in s
  {
    var page := Page(s, skip, take);
    forall x | x in page ensures x in s {
      var i :| 0 <= i < |page| && page[i] == x;
      assert s[skip + i] == x;
    }
  }

  /** Two adjacent pages, the second starting where the first stops, are
      one page of their combined size. */
  lemma PageJoin<T>(s: seq<T>, skip: nat, a: nat, b: nat)
    ensures Page(s, skip, a) + Page(s, skip + a, b) == Page(s, skip, a + b)
  {
    var left, right, both := Page(s, skip, a), Page(s, skip + a, b), Page(s, skip, a + b);
    if skip < |s| && a < |s| - skip {
      assert |left| == a;
      forall i | 0 <= i < |both| ensures (left + right)[i] == both[i] {
        if i >= a {
          assert right[i - a] == s[skip + a + (i - a)];
        }
      }
    }
  }
}
