/** Descending sort, limit and row numbering.

    `orderBy(col, ascending=False)` is modelled as `SortDesc`, whose contract
    is only "sorted and a permutation": the engine's sort is not stable, so no
    lemma here or downstream depends on how ties are ordered. Sort keys are
    `Option<int>`; a null key sorts after every number, as Spark's descending
    order places nulls last. */
module Ranking {
  import opened Cells
  import opened Query
  import opened Grouping

  /** `a` may precede `b` in a descending order. */
  predicate AtLeast(a: Option<int>, b: Option<int>) {
    match b
    case None => true
    case Some(y) => a.Some? && a.value >= y
  }

  predicate SortedDesc<T>(s: seq<T>, score: T -> Option<int>) {
    forall i, j :: 0 <= i < j < |s| ==> AtLeast(score(s[i]), score(s[j]))
  }

  function Insert<T(!new)>(x: T, s: seq<T>, score: T -> Option<int>): (r: seq<T>)
    requires SortedDesc(s, score)
    ensures SortedDesc(r, score)
    ensures multiset(r) == multiset(s) + multiset{x}
  {
    if |s| == 0 || AtLeast(score(x), score(s[0])) then [x] + s
    else
      var rest := Insert(x, s[1..], score);
      assert forall i :: 0 <= i < |rest| ==> AtLeast(score(s[0]), score(rest[i])) by {
        forall i | 0 <= i < |rest|
          ensures AtLeast(score(s[0]), score(rest[i]))
        {
          assert rest[i] in multiset(rest);
          if rest[i] != x {
            assert rest[i] in s[1..];
          }
        }
      }
      assert s == [s[0]] + s[1..];
      [s[0]] + rest
  }

  /** `orderBy(score, ascending=False)`: some descending permutation of `s`. */
  function SortDesc<T(!new)>(s: seq<T>, score: T -> Option<int>): (r: seq<T>)
    ensures SortedDesc(r, score)
    ensures multiset(r) == multiset(s)
  {
    if |s| == 0 then []
    else
      assert s == [s[0]] + s[1..];
      Insert(s[0], SortDesc(s[1..], score), score)
  }

  lemma {:induction false} FilterKeepsSorted<T(!new)>(s: seq<T>, score: T -> Option<int>, p: T -> bool)
    requires SortedDesc(s, score)
    ensures SortedDesc(Filter(s, p), score)
    decreases |s|
  {
    if |s| > 0 {
      FilterKeepsSorted(s[1..], score, p);
      var rest := Filter(s[1..], p);
      forall i | 0 <= i < |rest|
        ensures AtLeast(score(s[0]), score(rest[i]))
      {
        assert rest[i] in s[1..];
      }
    }
  }

  /** `orderBy(desc).limit(n)` keeps the highest-ranked rows: every row it
      leaves out ranks no higher than any row it keeps. */
  lemma LimitKeepsHighest<T(!new)>(s: seq<T>, sorted: seq<T>, score: T -> Option<int>, n: nat)
    requires SortedDesc(sorted, score)
    requires multiset(sorted) == multiset(s)
    ensures multiset(Take(sorted, n)) <= multiset(s)
    ensures forall x, y :: x in multiset(s) - multiset(Take(sorted, n)) && y in Take(sorted, n) ==>
                             AtLeast(score(y), score(x))
  {
    var top := Take(sorted, n);
    var rest := sorted[|top|..];
    assert sorted == top + rest;
    assert multiset(s) - multiset(top) == multiset(rest);
    forall x, y | x in multiset(rest) && y in top
      ensures AtLeast(score(y), score(x))
    {
      var j :| 0 <= j < |rest| && rest[j] == x;
      var i :| 0 <= i < |top| && top[i] == y;
      assert sorted[|top| + j] == x && sorted[i] == y;
    }
  }

  /** A suffix of a descending order is descending. */
  lemma SuffixSorted<T>(sorted: seq<T>, score: T -> Option<int>, m: nat)
    requires SortedDesc(sorted, score)
    requires m <= |sorted|
    ensures SortedDesc(sorted[m..], score)
  {
    var r := sorted[m..];
    forall i, j | 0 <= i < j < |r|
      ensures AtLeast(score(r[i]), score(r[j]))
    {
      assert r[i] == sorted[m + i] && r[j] == sorted[m + j];
    }
  }

  /** In a descending order, every row before position `m` ranks at least as high as every row from it on. */
  lemma PrefixOutranksSuffix<T>(sorted: seq<T>, score: T -> Option<int>, m: nat)
    requires SortedDesc(sorted, score)
    requires m <= |sorted|
    ensures forall x, y :: x in sorted[..m] && y in sorted[m..] ==> AtLeast(score(x), score(y))
  {
    forall x, y | x in sorted[..m] && y in sorted[m..]
      ensures AtLeast(score(x), score(y))
    {
      var i :| 0 <= i < m && sorted[..m][i] == x;
      var j :| 0 <= j < |sorted| - m && sorted[m..][j] == y;
      assert sorted[i] == x && sorted[m + j] == y;
    }
  }

  /** Dropping the first `k` rows of a descending order keeps it descending,
      and every row dropped ranks at least as high as any row kept. */
  lemma DropHighest<T(!new)>(s: seq<T>, sorted: seq<T>, score: T -> Option<int>, k: nat)
    requires SortedDesc(sorted, score)
    requires multiset(sorted) == multiset(s)
    ensures var r := sorted[Min(k, |sorted|)..];
      && |r| == Max(0, |s| - k)
      && SortedDesc(r, score)
      && multiset(r) <= multiset(s)
      && forall x, y :: x in multiset(s) - multiset(r) && y in r ==> AtLeast(score(x), score(y))
  {
    var m := Min(k, |sorted|);
    var top := sorted[..m];
    var r := sorted[m..];
    assert |s| == |sorted| by {
      assert |multiset(s)| == |multiset(sorted)|;
    }
    assert sorted == top + r;
    assert multiset(s) == multiset(top) + multiset(r);
    assert multiset(s) - multiset(r) == multiset(top);
    SuffixSorted(sorted, score, m);
    PrefixOutranksSuffix(sorted, score, m);
  }

  // ---------------------------------------------------------------------
  // ranking group tables
  // ---------------------------------------------------------------------

  /** Sort key of a group: its count. */
  function Tally<K>(g: Group<K>): Option<int> {
    Some(g.count)
  }

  /** `.orderBy(count, ascending=False).select(key).limit(n)` */
  function TopKeys<K(==,!new)>(gs: seq<Group<K>>, n: nat): seq<K> {
    KeysOf(Take(SortDesc(gs, Tally), n))
  }

  function KeyKept<K>(keep: K -> bool): Group<K> -> bool {
    (g: Group<K>) => keep(g.key)
  }

  /** `.orderBy(count, ascending=False).filter(keep(key)).limit(n).select(key)` */
  function TopKeysWhere<K(==,!new)>(gs: seq<Group<K>>, keep: K -> bool, n: nat): seq<K> {
    KeysOf(Take(Filter(SortDesc(gs, Tally), KeyKept(keep)), n))
  }

  lemma SameKeySameGroup<K(!new)>(gs: seq<Group<K>>, g: Group<K>, h: Group<K>)
    requires DistinctKeys(gs)
    requires g in gs && h in gs && g.key == h.key
    ensures g == h
  {
    var i :| 0 <= i < |gs| && gs[i] == g;
    var j :| 0 <= j < |gs| && gs[j] == h;
    assert KeysOf(gs)[i] == KeysOf(gs)[j];
  }

  /** Duplicate-free groups taken from a group table again have distinct keys. */
  lemma SubTableDistinctKeys<K(!new)>(gs: seq<Group<K>>, h: seq<Group<K>>)
    requires DistinctKeys(gs)
    requires NoDuplicates(h)
    requires forall g :: g in h ==> g in gs
    ensures DistinctKeys(h)
  {
    forall i, j | 0 <= i < j < |h|
      ensures KeysOf(h)[i] != KeysOf(h)[j]
    {
      if h[i].key == h[j].key {
        SameKeySameGroup(gs, h[i], h[j]);
      }
    }
  }

  lemma {:induction false} FilterKeepsNoDuplicates<T(!new)>(s: seq<T>, p: T -> bool)
    requires NoDuplicates(s)
    ensures NoDuplicates(Filter(s, p))
    decreases |s|
  {
    if |s| > 0 {
      FilterKeepsNoDuplicates(s[1..], p);
      if p(s[0]) {
        assert forall j :: 0 <= j < |s[1..]| ==> s[1..][j] == s[j + 1];
        assert s[0] !in s[1..];
        NoDuplicatesCons(s[0], Filter(s[1..], p));
      }
    }
  }

  /** Ranking a group table yields a group table with the same groups. */
  lemma RankedGroups<K(!new)>(gs: seq<Group<K>>)
    requires DistinctKeys(gs)
    ensures DistinctKeys(SortDesc(gs, Tally))
    ensures forall g :: g in SortDesc(gs, Tally) <==> g in gs
  {
    var f := SortDesc(gs, Tally);
    forall g
      ensures g in f <==> g in gs
    {
      assert g in f <==> g in multiset(f);
      assert g in gs <==> g in multiset(gs);
    }
    forall i, j | 0 <= i < j < |gs|
      ensures gs[i] != gs[j]
    {
      assert KeysOf(gs)[i] != KeysOf(gs)[j];
    }
    PermutationNoDuplicates(gs, f);
    SubTableDistinctKeys(gs, f);
  }

  /** `f` ranks the groups of `gs` whose key satisfies `keep`. */
  ghost predicate RanksTable<K(!new)>(gs: seq<Group<K>>, f: seq<Group<K>>, keep: K -> bool) {
    && DistinctKeys(gs)
    && DistinctKeys(f)
    && SortedDesc(f, Tally)
    && (forall g :: g in f <==> g in gs && keep(g.key))
  }

  lemma RankedEntry<K(!new)>(gs: seq<Group<K>>, f: seq<Group<K>>, keep: K -> bool, i: nat)
    requires RanksTable(gs, f, keep)
    requires i < |f|
    ensures f[i].key in KeysOf(gs) && keep(f[i].key)
    ensures CountOf(gs, f[i].key) == f[i].count
  {
    assert f[i] in f;
    KeyOfMember(gs, f[i]);
    CountOfMember(gs, f[i]);
  }

  lemma RankedPosition<K(!new)>(gs: seq<Group<K>>, f: seq<Group<K>>, keep: K -> bool, k: K) returns (m: nat)
    requires RanksTable(gs, f, keep)
    requires k in KeysOf(gs) && keep(k)
    ensures m < |f| && f[m].key == k && CountOf(gs, k) == f[m].count
  {
    var i :| 0 <= i < |gs| && KeysOf(gs)[i] == k;
    assert gs[i] in f;
    m :| 0 <= m < |f| && f[m] == gs[i];
    CountOfMember(gs, gs[i]);
  }

  /** `r` is a top-`n` ranking of the kept keys of a group table: at most
      `n` distinct kept keys of the table, in non-increasing count order,
      every kept key left out counting no more than the last one returned,
      and fewer than `n` only when every kept key is returned. */
  ghost predicate IsTopOfTable<K(!new)>(r: seq<K>, gs: seq<Group<K>>, keep: K -> bool, n: nat) {
    && |r| <= n
    && NoDuplicates(r)
    && (forall i :: 0 <= i < |r| ==> r[i] in KeysOf(gs) && keep(r[i]))
    && (forall i, j :: 0 <= i < j < |r| ==> CountOf(gs, r[i]) >= CountOf(gs, r[j]))
    && (forall k :: k in KeysOf(gs) && keep(k) && k !in r && 0 < |r| ==>
                     CountOf(gs, k) <= CountOf(gs, r[|r| - 1]))
    && (|r| < n ==> forall k :: k in KeysOf(gs) && keep(k) ==> k in r)
  }

  /** The first `n` keys of a ranked, filtered group table are its top-`n` ranking. */
  lemma TopOfRanked<K(!new)>(gs: seq<Group<K>>, f: seq<Group<K>>, keep: K -> bool, n: nat)
    requires RanksTable(gs, f, keep)
    ensures IsTopOfTable(KeysOf(Take(f, n)), gs, keep, n)
  {
    var top := Take(f, n);
    var r := KeysOf(top);
    assert r == KeysOf(f)[..|top|];
    forall i | 0 <= i < |r|
      ensures r[i] in KeysOf(gs) && keep(r[i])
      ensures CountOf(gs, r[i]) == f[i].count
    {
      RankedEntry(gs, f, keep, i);
    }
    forall i, j | 0 <= i < j < |r|
      ensures CountOf(gs, r[i]) >= CountOf(gs, r[j])
    {
      assert AtLeast(Tally(f[i]), Tally(f[j]));
    }
    forall k | k in KeysOf(gs) && keep(k) && k !in r && 0 < |r|
      ensures CountOf(gs, k) <= CountOf(gs, r[|r| - 1])
    {
      var m := RankedPosition(gs, f, keep, k);
      assert AtLeast(Tally(f[|top| - 1]), Tally(f[m]));
    }
    if |r| < n {
      forall k | k in KeysOf(gs) && keep(k)
        ensures k in r
      {
        var m := RankedPosition(gs, f, keep, k);
        assert r[m] == k;
      }
    }
  }

  /** Every key is kept. */
  function AnyKey<K>(): K -> bool {
    (k: K) => true
  }

  /** `r` is a top-`n` ranking of the keys of `rel` that satisfy `keep`, by
      their reference count: at most `n` distinct kept keys that occur in
      `rel`, in non-increasing count order, every other kept key counting no
      more than the last one, and fewer than `n` only when every kept key
      occurring in `rel` is listed. */
  ghost predicate IsTopRanking<T(!new), K(!new)>(r: seq<K>, rel: seq<T>, key: T -> K, counted: T -> bool, keep: K -> bool, n: nat) {
    && |r| <= n
    && NoDuplicates(r)
    && (forall i :: 0 <= i < |r| ==> OccursAsKey(rel, key, r[i]) && keep(r[i]))
    && (forall i, j :: 0 <= i < j < |r| ==> KeyCount(rel, key, counted, r[i]) >= KeyCount(rel, key, counted, r[j]))
    && (forall k :: keep(k) && k !in r && 0 < |r| ==> KeyCount(rel, key, counted, k) <= KeyCount(rel, key, counted, r[|r| - 1]))
    && (|r| < n ==> forall k :: OccursAsKey(rel, key, k) && keep(k) ==> k in r)
  }

  /** A top ranking of a relation's group table is a top ranking of the relation. */
  lemma TableToRelation<T(!new), K(!new)>(r: seq<K>, rel: seq<T>, key: T -> K, counted: T -> bool, keep: K -> bool, n: nat)
    requires IsTopOfTable(r, GroupCount(rel, key, counted), keep, n)
    ensures IsTopRanking(r, rel, key, counted, keep, n)
  {
    var gs := GroupCount(rel, key, counted);
    forall k
      ensures CountOf(gs, k) == KeyCount(rel, key, counted, k)
      ensures k in KeysOf(gs) <==> OccursAsKey(rel, key, k)
    {
      GroupCountLookup(rel, key, counted, k);
    }
    forall k | keep(k) && k !in r && 0 < |r|
      ensures KeyCount(rel, key, counted, k) <= KeyCount(rel, key, counted, r[|r| - 1])
    {
      if k !in KeysOf(gs) {
        assert CountOf(gs, k) == 0;
      }
    }
  }

  /** The ranked top keys of a relation's group-count, stated on the relation. */
  lemma TopKeysOfRelation<T(!new), K(!new)>(rel: seq<T>, key: T -> K, counted: T -> bool, n: nat)
    ensures IsTopRanking(TopKeys(GroupCount(rel, key, counted), n), rel, key, counted, AnyKey(), n)
  {
    var gs := GroupCount(rel, key, counted);
    var f := SortDesc(gs, Tally);
    RankedGroups(gs);
    TopOfRanked(gs, f, AnyKey(), n);
    TableToRelation(KeysOf(Take(f, n)), rel, key, counted, AnyKey(), n);
  }

  /** As `TopKeysOfRelation`, for a ranking filtered on the key before the limit. */
  lemma TopKeysWhereOfRelation<T(!new), K(!new)>(rel: seq<T>, key: T -> K, counted: T -> bool, keep: K -> bool, n: nat)
    ensures IsTopRanking(TopKeysWhere(GroupCount(rel, key, counted), keep, n), rel, key, counted, keep, n)
  {
    var gs := GroupCount(rel, key, counted);
    var ranked := SortDesc(gs, Tally);
    var f := Filter(ranked, KeyKept(keep));
    RankedGroups(gs);
    FilterKeepsSorted(ranked, Tally, KeyKept(keep));
    forall i, j | 0 <= i < j < |ranked|
      ensures ranked[i] != ranked[j]
    {
      assert KeysOf(ranked)[i] != KeysOf(ranked)[j];
    }
    FilterKeepsNoDuplicates(ranked, KeyKept(keep));
    SubTableDistinctKeys(gs, f);
    TopOfRanked(gs, f, keep, n);
    TableToRelation(KeysOf(Take(f, n)), rel, key, counted, keep, n);
  }

  /** The head of a top ranking with every key kept: present exactly when
      the relation has a row, occurring in it, and counting no less than any key. */
  lemma RankingHead<T(!new), K(!new)>(r: seq<K>, rel: seq<T>, key: T -> K, counted: T -> bool)
    requires IsTopRanking(r, rel, key, counted, AnyKey(), 1)
    ensures |r| == 0 <==> |rel| == 0
    ensures |r| > 0 ==> OccursAsKey(rel, key, r[0])
    ensures |r| > 0 ==> forall k :: KeyCount(rel, key, counted, k) <= KeyCount(rel, key, counted, r[0])
  {
    if |rel| > 0 {
      assert OccursAsKey(rel, key, key(rel[0])) && AnyKey()(key(rel[0]));
    }
    if |r| > 0 {
      assert AnyKey()(r[0]);
      forall k
        ensures KeyCount(rel, key, counted, k) <= KeyCount(rel, key, counted, r[0])
      {
        assert AnyKey()(k);
        if k != r[0] {
          assert k !in r;
        }
      }
    }
  }

  /** The first key of a relation's ranked group-count. */
  lemma TopKeyOfRelation<T(!new), K(!new)>(rel: seq<T>, key: T -> K, counted: T -> bool)
    ensures var r := TopKeys(GroupCount(rel, key, counted), 1);
      && (|r| == 0 <==> |rel| == 0)
      && (|r| > 0 ==> OccursAsKey(rel, key, r[0]))
      && (|r| > 0 ==> forall k :: KeyCount(rel, key, counted, k) <= KeyCount(rel, key, counted, r[0]))
  {
    TopKeysOfRelation(rel, key, counted, 1);
    RankingHead(TopKeys(GroupCount(rel, key, counted), 1), rel, key, counted);
  }

  // ---------------------------------------------------------------------
  // row_number() over a window
  // ---------------------------------------------------------------------

  /** `row_number()`: each row paired with its position, counting from `first`. */
  function NumberFrom<T>(s: seq<T>, first: int): (r: seq<(int, T)>)
    ensures |r| == |s|
    ensures forall i :: 0 <= i < |s| ==> r[i] == (first + i, s[i])
  {
    seq(|s|, i requires 0 <= i < |s| => (first + i, s[i]))
  }

  function InWindow<T>(lo: int, hi: int): ((int, T)) -> bool {
    (p: (int, T)) => lo <= p.0 <= hi
  }

  function Unnumbered<T>(p: (int, T)): T {
    p.1
  }

  /** `df.withColumn("row_num", row_number().over(w)).filter(col("row_num").between(lo, hi))`,
      then the number dropped again. */
  function RowsBetween<T(!new)>(s: seq<T>, lo: int, hi: int): seq<T> {
    Select(Filter(NumberFrom(s, 1), InWindow(lo, hi)), Unnumbered)
  }

  /** Keeping row numbers `lo` to `hi` is the slice of positions `lo - 1` to `hi - 1`. */
  lemma RowsBetweenSlice<T(!new)>(s: seq<T>, lo: int, hi: int)
    requires 1 <= lo <= hi + 1
    ensures RowsBetween(s, lo, hi) == s[Min(lo - 1, |s|)..Min(hi, |s|)]
  {
    var t := NumberFrom(s, 1);
    var a := Min(lo - 1, |s|);
    var c := Min(hi, |s|);
    forall i | 0 <= i < |t|
      ensures InWindow(lo, hi)(t[i]) <==> a <= i < c
    {
    }
    FilterRange(t, InWindow(lo, hi), a, c);
    assert Select(t[a..c], Unnumbered) == s[a..c];
  }
}
