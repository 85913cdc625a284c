/** Row-level relational operators over in-memory relations.

    A relation is a sequence of rows. The operators here are the ones the
    analyses compose: filter, projection, limit, distinct, and the inner and
    left equi-joins on the crash identifier. A join yields pairs of rows, so
    a column is always read from the side it was qualified with. */
module Query {
  import opened Cells

  function Min(a: int, b: int): int {
    if a <= b then a else b
  }

  function Max(a: int, b: int): int {
    if a <= b then b else a
  }

  // ---------------------------------------------------------------------
  // filter / where
  // ---------------------------------------------------------------------

  /** `df.filter(p)`: the rows satisfying `p`, in their original order. */
  function Filter<T(!new)>(s: seq<T>, p: T -> bool): (r: seq<T>)
    ensures |r| <= |s|
    ensures forall x :: x in r <==> x in s && p(x)
  {
    if |s| == 0 then []
    else (if p(s[0]) then [s[0]] else []) + Filter(s[1..], p)
  }

  lemma {:induction false} FilterAppend<T(!new)>(a: seq<T>, b: seq<T>, p: T -> bool)
    ensures Filter(a + b, p) == Filter(a, p) + Filter(b, p)
    decreases |a|
  {
    if |a| > 0 {
      assert (a + b)[1..] == a[1..] + b;
      FilterAppend(a[1..], b, p);
    } else {
      assert a + b == b;
    }
  }

  /** Filtering keeps a sub-multiset of the rows. */
  lemma {:induction false} FilterSubMultiset<T(!new)>(s: seq<T>, p: T -> bool)
    ensures multiset(Filter(s, p)) <= multiset(s)
    decreases |s|
  {
    if |s| > 0 {
      FilterSubMultiset(s[1..], p);
      assert s == [s[0]] + s[1..];
    }
  }

  /** Counting appended rows: the count grows by one exactly for a matching row. */
  lemma FilterCountAppend<T(!new)>(s: seq<T>, x: T, p: T -> bool)
    ensures |Filter(s + [x], p)| == |Filter(s, p)| + (if p(x) then 1 else 0)
  {
    FilterAppend(s, [x], p);
    assert Filter([x], p) == (if p(x) then [x] else []) + Filter([x][1..], p);
  }

  lemma FilterEmptyWhenNoneMatch<T(!new)>(s: seq<T>, p: T -> bool)
    requires forall i :: 0 <= i < |s| ==> !p(s[i])
    ensures Filter(s, p) == []
  {
  }

  /** A filter keeps nothing exactly when no row satisfies its predicate. */
  lemma FilterEmptyIff<T(!new)>(s: seq<T>, p: T -> bool)
    ensures |Filter(s, p)| == 0 <==> forall i :: 0 <= i < |s| ==> !p(s[i])
  {
    var kept := Filter(s, p);
    if |kept| > 0 {
      assert kept[0] in kept;
    } else {
      assert forall i :: 0 <= i < |s| ==> s[i] in s;
    }
  }

  /** A filter whose predicate holds exactly on the positions `a` to `c - 1`
      keeps exactly that slice. */
  lemma {:induction false} FilterRange<T(!new)>(t: seq<T>, p: T -> bool, a: int, c: int)
    requires 0 <= a <= c <= |t|
    requires forall i :: 0 <= i < |t| ==> (p(t[i]) <==> a <= i < c)
    ensures Filter(t, p) == t[a..c]
    decreases |t|
  {
    if |t| > 0 {
      var rest := t[1..];
      var a', c' := if a > 0 then a - 1 else 0, if c > 0 then c - 1 else 0;
      forall i | 0 <= i < |rest|
        ensures p(rest[i]) <==> a' <= i < c'
      {
        assert rest[i] == t[i + 1];
      }
      FilterRange(rest, p, a', c');
      if a > 0 {
        assert rest[a'..c'] == t[a..c];
      } else if c > 0 {
        assert t[a..c] == [t[0]] + rest[a'..c'];
      }
    }
  }

  // ---------------------------------------------------------------------
  // select / limit / distinct
  // ---------------------------------------------------------------------

  /** `df.select(f)`: one output value per row, in order. */
  function Select<A, B>(s: seq<A>, f: A -> B): (r: seq<B>)
    ensures |r| == |s|
    ensures forall i :: 0 <= i < |s| ==> r[i] == f(s[i])
  {
    seq(|s|, i requires 0 <= i < |s| => f(s[i]))
  }

  lemma SelectMembership<A(!new), B(!new)>(s: seq<A>, f: A -> B, y: B)
    ensures y in Select(s, f) <==> exists x :: x in s && f(x) == y
  {
    var r := Select(s, f);
    if y in r {
      var i :| 0 <= i < |r| && r[i] == y;
      assert s[i] in s;
    }
    if exists x :: x in s && f(x) == y {
      var x :| x in s && f(x) == y;
      var i :| 0 <= i < |s| && s[i] == x;
      assert r[i] == y;
    }
  }

  /** `df.limit(n)`: the first `n` rows. */
  function Take<T>(s: seq<T>, n: nat): (r: seq<T>)
    ensures |r| == Min(n, |s|)
    ensures r <= s
  {
    if |s| <= n then s else s[..n]
  }

  predicate NoDuplicates<T(==)>(s: seq<T>) {
    forall i, j :: 0 <= i < j < |s| ==> s[i] != s[j]
  }

  /** `df.distinct()`: each value once, at its first occurrence. */
  function Distinct<T(==,!new)>(s: seq<T>): (r: seq<T>)
    ensures NoDuplicates(r)
    ensures forall x :: x in r <==> x in s
    ensures |r| <= |s|
  {
    if |s| == 0 then []
    else
      var rest := Distinct(s[..|s| - 1]);
      assert s == s[..|s| - 1] + [s[|s| - 1]];
      if s[|s| - 1] in rest then rest else rest + [s[|s| - 1]]
  }

  /** A duplicate-free sequence is as long as the set of its elements. */
  lemma {:induction false} NoDuplicatesCardinality<T(!new)>(s: seq<T>)
    requires NoDuplicates(s)
    ensures |s| == |set x | x in s|
    decreases |s|
  {
    if |s| > 0 {
      var rest := s[1..];
      NoDuplicatesCardinality(rest);
      assert (set x | x in s) == {s[0]} + (set x | x in rest);
      assert forall j :: 0 <= j < |rest| ==> rest[j] == s[j + 1];
      assert s[0] !in rest;
    } else {
      assert (set x | x in s) == {};
    }
  }

  /** A duplicate-free sequence holds every value at most once. */
  lemma {:induction false} NoDuplicatesMultiplicity<T(!new)>(s: seq<T>, x: T)
    requires NoDuplicates(s)
    ensures multiset(s)[x] <= 1
    decreases |s|
  {
    if |s| > 0 {
      var rest := s[1..];
      assert s == [s[0]] + rest;
      NoDuplicatesMultiplicity(rest, x);
      assert forall j :: 0 <= j < |rest| ==> rest[j] == s[j + 1];
      assert s[0] !in rest;
    }
  }

  /** A permutation of a duplicate-free sequence is duplicate-free. */
  lemma PermutationNoDuplicates<T(!new)>(a: seq<T>, b: seq<T>)
    requires multiset(a) == multiset(b)
    requires NoDuplicates(a)
    ensures NoDuplicates(b)
  {
    forall i, j | 0 <= i < j < |b|
      ensures b[i] != b[j]
    {
      if b[i] == b[j] {
        var x := b[i];
        assert b == b[..j] + b[j..];
        assert x in b[..j];
        assert x in b[j..];
        assert multiset(b)[x] >= 2;
        NoDuplicatesMultiplicity(a, x);
        assert false;
      }
    }
  }

  // ---------------------------------------------------------------------
  // equi-joins on the crash identifier
  // ---------------------------------------------------------------------

  /** SQL equality of join keys: a null key matches nothing, not even null. */
  predicate KeysMatch(a: Cell, b: Cell) {
    a.Some? && a == b
  }

  /** The right-hand rows matching one left-hand row, as joined pairs. */
  function Matching<A(!new), B(!new)>(a: A, r: seq<B>, lk: A -> Cell, rk: B -> Cell): (j: seq<(A, B)>)
    ensures forall p :: p in j <==> p.0 == a && p.1 in r && KeysMatch(lk(a), rk(p.1))
  {
    if |r| == 0 then []
    else (if KeysMatch(lk(a), rk(r[0])) then [(a, r[0])] else []) + Matching(a, r[1..], lk, rk)
  }

  /** `l.join(r, "CRASH_ID", "inner")`: every matching pair of rows. */
  function Join<A(!new), B(!new)>(l: seq<A>, r: seq<B>, lk: A -> Cell, rk: B -> Cell): (j: seq<(A, B)>)
    ensures forall p :: p in j <==> p.0 in l && p.1 in r && KeysMatch(lk(p.0), rk(p.1))
  {
    if |l| == 0 then []
    else Matching(l[0], r, lk, rk) + Join(l[1..], r, lk, rk)
  }

  lemma {:induction false} MatchingMultiplicity<A(!new), B(!new)>(a: A, r: seq<B>, lk: A -> Cell, rk: B -> Cell, x: A, y: B)
    ensures multiset(Matching(a, r, lk, rk))[(x, y)]
         == if x == a && KeysMatch(lk(a), rk(y)) then multiset(r)[y] else 0
    decreases |r|
  {
    if |r| > 0 {
      MatchingMultiplicity(a, r[1..], lk, rk, x, y);
      assert r == [r[0]] + r[1..];
    }
  }

  lemma MultisetHead<T>(s: seq<T>, x: T)
    requires |s| > 0
    ensures multiset(s)[x] == multiset(s[1..])[x] + (if x == s[0] then 1 else 0)
  {
    assert s == [s[0]] + s[1..];
  }

  /** The inner join holds each matching pair once for every pairing of
      its two rows' occurrences, and no other pair. */
  lemma {:induction false} JoinMultiplicity<A(!new), B(!new)>(l: seq<A>, r: seq<B>, lk: A -> Cell, rk: B -> Cell, x: A, y: B)
    ensures multiset(Join(l, r, lk, rk))[(x, y)]
         == if KeysMatch(lk(x), rk(y)) then multiset(l)[x] * multiset(r)[y] else 0
    decreases |l|
  {
    if |l| > 0 {
      var head := Matching(l[0], r, lk, rk);
      var tail := Join(l[1..], r, lk, rk);
      assert Join(l, r, lk, rk) == head + tail;
      assert multiset(head + tail)[(x, y)] == multiset(head)[(x, y)] + multiset(tail)[(x, y)];
      JoinMultiplicity(l[1..], r, lk, rk, x, y);
      MatchingMultiplicity(l[0], r, lk, rk, x, y);
      MultisetHead(l, x);
      if KeysMatch(lk(x), rk(y)) {
        SplitProduct(multiset(l[1..])[x], if x == l[0] then 1 else 0, multiset(r)[y]);
      }
    }
  }

  lemma SplitProduct(m: nat, k: nat, n: nat)
    ensures (m + k) * n == m * n + k * n
  {
  }

  /** No right-hand row matches `a`. */
  ghost predicate NoMatch<A, B(!new)>(a: A, r: seq<B>, lk: A -> Cell, rk: B -> Cell) {
    forall b :: b in r ==> !KeysMatch(lk(a), rk(b))
  }

  /** The matching pairs of one left row with the right side wrapped as present. */
  function PresentMatches<A(!new), B(!new)>(a: A, r: seq<B>, lk: A -> Cell, rk: B -> Cell): (j: seq<(A, Option<B>)>)
    ensures |j| == 0 <==> NoMatch(a, r, lk, rk)
    ensures forall p :: p in j <==> p.0 == a && p.1.Some? && p.1.value in r && KeysMatch(lk(a), rk(p.1.value))
  {
    if |r| == 0 then []
    else
      (if KeysMatch(lk(a), rk(r[0])) then [(a, Some(r[0]))] else [])
      + PresentMatches(a, r[1..], lk, rk)
  }

  /** `l.join(r, "CRASH_ID", "left")`: every matching pair, and each left row
      that matches nothing once, paired with the absent marker `None`. */
  function LeftJoin<A(!new), B(!new)>(l: seq<A>, r: seq<B>, lk: A -> Cell, rk: B -> Cell): (j: seq<(A, Option<B>)>)
    ensures forall p :: p in j <==>
      p.0 in l && match p.1
                  case Some(b) => b in r && KeysMatch(lk(p.0), rk(b))
                  case None => NoMatch(p.0, r, lk, rk)
  {
    if |l| == 0 then []
    else
      var m := PresentMatches(l[0], r, lk, rk);
      (if |m| == 0 then [(l[0], None)] else m) + LeftJoin(l[1..], r, lk, rk)
  }
}
