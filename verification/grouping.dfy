/** Group-and-count: `df.groupBy(key).agg(count(col))`.

    The aggregation is computed the way an engine does it, in one pass over
    the rows that bumps a running table of groups; it is proved equal to the
    reference definition `KeyCount`, which simply counts the rows of one key
    whose counted column is non-null. */
module Grouping {
  import opened Cells
  import opened Query

  /** One output row of a group-count: the group's key and its count. */
  datatype Group<K> = Group(key: K, count: nat)

  function KeysOf<K>(gs: seq<Group<K>>): (ks: seq<K>)
    ensures |ks| == |gs|
    ensures forall i :: 0 <= i < |gs| ==> ks[i] == gs[i].key
  {
    seq(|gs|, i requires 0 <= i < |gs| => gs[i].key)
  }

  /** One output row per distinct key. */
  predicate DistinctKeys<K(==,!new)>(gs: seq<Group<K>>) {
    NoDuplicates(KeysOf(gs))
  }

  /** The rows a group `k` counts: key `k` and a non-null counted column. */
  function Tallied<T, K(==,!new)>(key: T -> K, k: K, counted: T -> bool): T -> bool {
    x => key(x) == k && counted(x)
  }

  /** Reference definition of `count(col)` for the group of key `k`. */
  function KeyCount<T(!new), K(==,!new)>(rel: seq<T>, key: T -> K, counted: T -> bool, k: K): nat {
    |Filter(rel, Tallied(key, k, counted))|
  }

  /** Some row of `rel` has key `k`. */
  ghost predicate OccursAsKey<T, K>(rel: seq<T>, key: T -> K, k: K) {
    exists i :: 0 <= i < |rel| && key(rel[i]) == k
  }

  /** The count recorded for key `k`, or 0 when there is no such group. */
  function CountOf<K(==,!new)>(gs: seq<Group<K>>, k: K): (n: nat)
    ensures k !in KeysOf(gs) ==> n == 0
  {
    if |gs| == 0 then 0
    else if gs[0].key == k then gs[0].count
    else
      assert KeysOf(gs[1..]) == KeysOf(gs)[1..];
      CountOf(gs[1..], k)
  }

  lemma {:induction false} CountOfMember<K(!new)>(gs: seq<Group<K>>, g: Group<K>)
    requires DistinctKeys(gs)
    requires g in gs
    ensures CountOf(gs, g.key) == g.count
    decreases |gs|
  {
    if gs[0] != g {
      assert KeysOf(gs[1..]) == KeysOf(gs)[1..];
      var j :| 0 <= j < |gs| && gs[j] == g;
      assert gs[0].key != g.key by {
        assert KeysOf(gs)[0] == gs[0].key && KeysOf(gs)[j] == g.key;
      }
      CountOfMember(gs[1..], g);
    }
  }

  lemma NoDuplicatesCons<T>(x: T, s: seq<T>)
    requires NoDuplicates(s)
    requires x !in s
    ensures NoDuplicates([x] + s)
  {
    var t := [x] + s;
    forall i, j | 0 <= i < j < |t|
      ensures t[i] != t[j]
    {
      assert t[j] == s[j - 1];
      if i > 0 {
        assert t[i] == s[i - 1];
      }
    }
  }

  lemma KeyOfMember<K(!new)>(gs: seq<Group<K>>, g: Group<K>)
    requires g in gs
    ensures g.key in KeysOf(gs)
  {
    var i :| 0 <= i < |gs| && gs[i] == g;
    assert KeysOf(gs)[i] == g.key;
  }

  lemma KeysOfCons<K>(g: Group<K>, gs: seq<Group<K>>)
    ensures KeysOf([g] + gs) == [g.key] + KeysOf(gs)
  {
  }

  /** The tail of a table with distinct keys has distinct keys, none of them the head's. */
  lemma DistinctKeysTail<K(!new)>(gs: seq<Group<K>>)
    requires DistinctKeys(gs) && |gs| > 0
    ensures DistinctKeys(gs[1..])
    ensures gs[0].key !in KeysOf(gs[1..])
  {
    assert KeysOf(gs[1..]) == KeysOf(gs)[1..];
    assert forall j :: 0 <= j < |gs| - 1 ==> KeysOf(gs[1..])[j] == KeysOf(gs)[j + 1];
  }

  /** Adds `inc` to the group of key `k`, creating it at the end when absent. */
  function Bump<K(==,!new)>(gs: seq<Group<K>>, k: K, inc: nat): (r: seq<Group<K>>)
    requires DistinctKeys(gs)
    ensures DistinctKeys(r)
    ensures forall x :: x in KeysOf(r) <==> x in KeysOf(gs) || x == k
    ensures forall g :: g in r ==> if g.key == k then g.count == CountOf(gs, k) + inc else g in gs
    decreases |gs|
  {
    if |gs| == 0 then
      assert KeysOf([Group(k, inc)]) == [k];
      [Group(k, inc)]
    else
      var tail := gs[1..];
      assert gs == [gs[0]] + tail;
      DistinctKeysTail(gs);
      KeysOfCons(gs[0], tail);
      if gs[0].key == k then
        var head := Group(k, gs[0].count + inc);
        KeysOfCons(head, tail);
        NoDuplicatesCons(k, KeysOf(tail));
        assert forall g :: g in tail ==> g.key != k by {
          forall g | g in tail
            ensures g.key != k
          {
            KeyOfMember(tail, g);
          }
        }
        [head] + tail
      else
        var rest := Bump(tail, k, inc);
        KeysOfCons(gs[0], rest);
        NoDuplicatesCons(gs[0].key, KeysOf(rest));
        [gs[0]] + rest
  }

  lemma KeyCountAppend<T(!new), K(!new)>(rel: seq<T>, x: T, key: T -> K, counted: T -> bool)
    ensures forall k :: KeyCount(rel + [x], key, counted, k)
                     == KeyCount(rel, key, counted, k) + (if key(x) == k && counted(x) then 1 else 0)
  {
    forall k {
      FilterCountAppend(rel, x, Tallied(key, k, counted));
    }
  }

  /** A group table that agrees with the reference count on every group
      agrees with it on every key. */
  lemma CountOfAgrees<T(!new), K(!new)>(gs: seq<Group<K>>, rel: seq<T>, key: T -> K, counted: T -> bool, k: K)
    requires DistinctKeys(gs)
    requires forall x :: x in KeysOf(gs) <==> OccursAsKey(rel, key, x)
    requires forall g :: g in gs ==> g.count == KeyCount(rel, key, counted, g.key)
    ensures CountOf(gs, k) == KeyCount(rel, key, counted, k)
  {
    if k in KeysOf(gs) {
      var i :| 0 <= i < |gs| && KeysOf(gs)[i] == k;
      CountOfMember(gs, gs[i]);
    } else {
      FilterEmptyWhenNoneMatch(rel, Tallied(key, k, counted));
    }
  }

  /** `df.groupBy(key).agg(count(col))`, with `counted` saying whether a
      row's counted column is non-null. */
  function GroupCount<T(!new), K(==,!new)>(rel: seq<T>, key: T -> K, counted: T -> bool): (gs: seq<Group<K>>)
    ensures DistinctKeys(gs)
    ensures forall k :: k in KeysOf(gs) <==> OccursAsKey(rel, key, k)
    ensures forall g :: g in gs ==> g.count == KeyCount(rel, key, counted, g.key)
    decreases |rel|
  {
    if |rel| == 0 then []
    else
      var init := rel[..|rel| - 1];
      var last := rel[|rel| - 1];
      assert rel == init + [last];
      var before := GroupCount(init, key, counted);
      var gs := Bump(before, key(last), if counted(last) then 1 else 0);
      KeyCountAppend(init, last, key, counted);
      CountOfAgrees(before, init, key, counted, key(last));
      assert forall k :: OccursAsKey(rel, key, k) <==> OccursAsKey(init, key, k) || key(last) == k by {
        forall k | OccursAsKey(rel, key, k) && key(last) != k
          ensures OccursAsKey(init, key, k)
        {
          var i :| 0 <= i < |rel| && key(rel[i]) == k;
          assert init[i] == rel[i];
        }
        forall k | OccursAsKey(init, key, k)
          ensures OccursAsKey(rel, key, k)
        {
          var i :| 0 <= i < |init| && key(init[i]) == k;
          assert rel[i] == init[i];
        }
      }
      gs
  }

  /** The group table of a relation looks up every key's reference count. */
  lemma GroupCountLookup<T(!new), K(!new)>(rel: seq<T>, key: T -> K, counted: T -> bool, k: K)
    ensures CountOf(GroupCount(rel, key, counted), k) == KeyCount(rel, key, counted, k)
  {
    CountOfAgrees(GroupCount(rel, key, counted), rel, key, counted, k);
  }

  /** A key occurs among the rows a filter keeps exactly when some kept row carries it. */
  lemma OccursInFilter<T(!new), K>(rel: seq<T>, p: T -> bool, key: T -> K, k: K)
    ensures OccursAsKey(Filter(rel, p), key, k) <==> exists i :: 0 <= i < |rel| && p(rel[i]) && key(rel[i]) == k
  {
    var f := Filter(rel, p);
    if OccursAsKey(f, key, k) {
      var j :| 0 <= j < |f| && key(f[j]) == k;
      assert f[j] in f;
      var i :| 0 <= i < |rel| && rel[i] == f[j];
    }
    if exists i :: 0 <= i < |rel| && p(rel[i]) && key(rel[i]) == k {
      var i :| 0 <= i < |rel| && p(rel[i]) && key(rel[i]) == k;
      assert rel[i] in f;
      var j :| 0 <= j < |f| && f[j] == rel[i];
    }
  }
}
