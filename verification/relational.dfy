/**
 * The dataframe operations the loaders are built from, over finite
 * sequences of rows: filter, inner equi-join and group-by. Spark gives no
 * row-order guarantee for any of them, so every contract speaks about
 * membership and multiplicity, never about positions.
 */
module Relational {

  /** Pairwise-distinct elements. */
  predicate NoDuplicates<T(==,!new)>(s: seq<T>) {
    forall i, j :: 0 <= i < j < |s| ==> s[i] != s[j]
  }

  /** `df.filter(p)`: every row satisfying `p`, with its multiplicity; no other row. */
  function Filter<T(==,!new)>(xs: seq<T>, p: T -> bool): (r: seq<T>)
    ensures forall x :: multiset(r)[x] == if p(x) then multiset(xs)[x] else 0
    ensures forall x :: x in r <==> x in xs && p(x)
  {
    if |xs| == 0 then []
    else
      var last := xs[|xs| - 1];
      assert xs == xs[..|xs| - 1] + [last];
      Filter(xs[..|xs| - 1], p) + (if p(last) then [last] else [])
  }

  /** The rows `(a, b)` with `b` drawn from `ys` and `b`'s key equal to `a`'s, in `ys`'s order. */
  function Matches<A(==,!new), B(==,!new), K(==,!new)>(a: A, ys: seq<B>, ka: A -> K, kb: B -> K): (r: seq<(A, B)>)
    ensures forall pr :: multiset(r)[pr] == if pr.0 == a && kb(pr.1) == ka(a) then multiset(ys)[pr.1] else 0
  {
    if |ys| == 0 then []
    else
      var last := ys[|ys| - 1];
      assert ys == ys[..|ys| - 1] + [last];
      Matches(a, ys[..|ys| - 1], ka, kb) + (if kb(last) == ka(a) then [(a, last)] else [])
  }

  /** How often an inner join yields the pair `q`: the product of its two sides' multiplicities when the keys agree. */
  function JoinCount<A(==,!new), B(==,!new), K(==,!new)>(xs: seq<A>, ys: seq<B>, ka: A -> K, kb: B -> K, q: (A, B)): nat {
    if ka(q.0) == kb(q.1) then multiset(xs)[q.0] * multiset(ys)[q.1] else 0
  }

  /** The inductive step of `Join` at one pair: appending `last` to the left side adds its matches. */
  lemma JoinStepAt<A(!new), B(!new), K(!new)>(front: seq<(A, B)>, xs: seq<A>, last: A, ys: seq<B>, ka: A -> K, kb: B -> K, q: (A, B))
    requires multiset(front)[q] == JoinCount(xs, ys, ka, kb, q)
    ensures multiset(front + Matches(last, ys, ka, kb))[q] == JoinCount(xs + [last], ys, ka, kb, q)
  {
    var r := Matches(last, ys, ka, kb);
    var n := multiset(xs)[q.0];
    var m := multiset(ys)[q.1];
    assert multiset(front + r)[q] == multiset(front)[q] + multiset(r)[q];
    if ka(q.0) != kb(q.1) {
      assert multiset(r)[q] == 0;
    } else if q.0 == last {
      assert multiset(r)[q] == m;
      assert multiset(xs + [last])[q.0] == n + 1;
      MulSucc(n, m);
    } else {
      assert multiset(r)[q] == 0;
      assert multiset(xs + [last])[q.0] == n;
    }
  }

  lemma MulSucc(n: nat, m: nat)
    ensures (n + 1) * m == n * m + m
  {
  }

  /** The inductive step of `Join`: appending one row to the left side adds its matches. */
  lemma JoinStep<A(!new), B(!new), K(!new)>(front: seq<(A, B)>, xs: seq<A>, last: A, ys: seq<B>, ka: A -> K, kb: B -> K)
    requires forall q :: multiset(front)[q] == JoinCount(xs, ys, ka, kb, q)
    ensures forall q :: multiset(front + Matches(last, ys, ka, kb))[q] == JoinCount(xs + [last], ys, ka, kb, q)
  {
    forall q
      ensures multiset(front + Matches(last, ys, ka, kb))[q] == JoinCount(xs + [last], ys, ka, kb, q)
    {
      JoinStepAt(front, xs, last, ys, ka, kb, q);
    }
  }

  /**
   * `xs.join(ys, on=key)`: Spark's inner equi-join. Each pair of rows with
   * equal keys yields one output row, so a pair occurs as often as the product
   * of its two sides' multiplicities, and a row without a partner disappears.
   */
  function Join<A(==,!new), B(==,!new), K(==,!new)>(xs: seq<A>, ys: seq<B>, ka: A -> K, kb: B -> K): (r: seq<(A, B)>)
    ensures forall pr :: multiset(r)[pr] == JoinCount(xs, ys, ka, kb, pr)
  {
    if |xs| == 0 then []
    else
      var front := xs[..|xs| - 1];
      var last := xs[|xs| - 1];
      assert xs == front + [last];
      JoinStep(Join(front, ys, ka, kb), front, last, ys, ka, kb);
      Join(front, ys, ka, kb) + Matches(last, ys, ka, kb)
  }

  /** A joined row is exactly a pair of rows, one from each side, whose keys agree. */
  lemma JoinMembership<A(!new), B(!new), K(!new)>(xs: seq<A>, ys: seq<B>, ka: A -> K, kb: B -> K)
    ensures forall pr :: pr in Join(xs, ys, ka, kb) <==> pr.0 in xs && pr.1 in ys && ka(pr.0) == kb(pr.1)
  {
    forall pr
      ensures pr in Join(xs, ys, ka, kb) <==> pr.0 in xs && pr.1 in ys && ka(pr.0) == kb(pr.1)
    {
      var j := Join(xs, ys, ka, kb);
      var n := multiset(xs)[pr.0];
      var m := multiset(ys)[pr.1];
      assert multiset(j)[pr] == JoinCount(xs, ys, ka, kb, pr);
      assert pr in j <==> multiset(j)[pr] > 0;
      assert pr.0 in xs <==> n > 0;
      assert pr.1 in ys <==> m > 0;
      if n > 0 && m > 0 {
        MulPositive(n, m);
      }
    }
  }

  lemma MulPositive(n: nat, m: nat)
    requires n > 0 && m > 0
    ensures n * m > 0
  {
  }

  /** The key column of a keyed sequence. */
  function Keys<K(==,!new), V(==,!new)>(xs: seq<(K, V)>): seq<K> {
    seq(|xs|, i requires 0 <= i < |xs| => xs[i].0)
  }

  lemma KeysOfSnoc<K(!new), V(!new)>(xs: seq<(K, V)>)
    requires |xs| > 0
    ensures Keys(xs) == Keys(xs[..|xs| - 1]) + [xs[|xs| - 1].0]
  {
  }

  /** The distinct elements of `ks`, each once. */
  function Distinct<K(==,!new)>(ks: seq<K>): (r: seq<K>)
    ensures NoDuplicates(r)
    ensures forall k :: k in r <==> k in ks
  {
    if |ks| == 0 then []
    else
      var d := Distinct(ks[..|ks| - 1]);
      var last := ks[|ks| - 1];
      assert ks == ks[..|ks| - 1] + [last];
      if last in d then d else d + [last]
  }

  /** The values filed under key `k`, as often as they occur with it. */
  function Select<K(==,!new), V(==,!new)>(xs: seq<(K, V)>, k: K): (vs: seq<V>)
    ensures |vs| == multiset(Keys(xs))[k]
    ensures forall v :: v in vs <==> (k, v) in xs
    ensures forall v :: multiset(vs)[v] == multiset(xs)[(k, v)]
  {
    if |xs| == 0 then []
    else
      var last := xs[|xs| - 1];
      KeysOfSnoc(xs);
      assert xs == xs[..|xs| - 1] + [last];
      Select(xs[..|xs| - 1], k) + (if last.0 == k then [last.1] else [])
  }

  /** One group per key of `ks`, holding the values filed under it. */
  function GroupsOf<K(==,!new), V(==,!new)>(xs: seq<(K, V)>, ks: seq<K>): seq<(K, seq<V>)> {
    seq(|ks|, i requires 0 <= i < |ks| => (ks[i], Select(xs, ks[i])))
  }

  /**
   * `groupBy(key)`: one group per distinct key of the input, holding every
   * value filed under that key; no group is empty.
   */
  function GroupBy<K(==,!new), V(==,!new)>(xs: seq<(K, V)>): (groups: seq<(K, seq<V>)>)
    ensures NoDuplicates(Keys(groups))
    ensures forall k :: k in Keys(groups) <==> k in Keys(xs)
    ensures forall g :: g in groups ==> g.1 == Select(xs, g.0) && |g.1| > 0
  {
    var ks := Distinct(Keys(xs));
    var groups := GroupsOf(xs, ks);
    assert Keys(groups) == ks;
    forall g | g in groups
      ensures |g.1| > 0
    {
      assert g.0 in Keys(xs);
      var i :| 0 <= i < |xs| && xs[i].0 == g.0;
      assert multiset(Keys(xs))[g.0] > 0;
    }
    groups
  }

  /** The number of values across all groups. */
  function Total<K(==,!new), V(==,!new)>(groups: seq<(K, seq<V>)>): nat {
    if |groups| == 0 then 0 else Total(groups[..|groups| - 1]) + |groups[|groups| - 1].1|
  }

  /** The key of a pair in `xs` is among `xs`'s keys. */
  lemma KeyMembership<K(!new), V(!new)>(xs: seq<(K, V)>, k: K, v: V)
    requires (k, v) in xs
    ensures k in Keys(xs)
  {
    var i :| 0 <= i < |xs| && xs[i] == (k, v);
    assert Keys(xs)[i] == k;
  }

  /** A group is a key of the input paired with everything filed under it. */
  lemma GroupByMembership<K(!new), V(!new)>(xs: seq<(K, V)>, g: (K, seq<V>))
    ensures g in GroupBy(xs) <==> g.0 in Keys(xs) && g.1 == Select(xs, g.0)
  {
    var groups := GroupBy(xs);
    if g.0 in Keys(xs) && g.1 == Select(xs, g.0) {
      assert g.0 in Keys(groups);
      var j :| 0 <= j < |groups| && Keys(groups)[j] == g.0;
      assert groups[j] in groups;
    }
    if g in groups {
      var j :| 0 <= j < |groups| && groups[j] == g;
      assert Keys(groups)[j] == g.0;
    }
  }

  /** The multiplicities in `m` of the keys `ks`, summed. */
  function SumCounts<K(==,!new)>(ks: seq<K>, m: multiset<K>): nat {
    if |ks| == 0 then 0 else SumCounts(ks[..|ks| - 1], m) + m[ks[|ks| - 1]]
  }

  lemma {:induction false} SumCountsAddOne<K(!new)>(ks: seq<K>, m: multiset<K>, x: K)
    requires NoDuplicates(ks)
    ensures SumCounts(ks, m + multiset{x}) == SumCounts(ks, m) + (if x in ks then 1 else 0)
  {
    if |ks| > 0 {
      var front := ks[..|ks| - 1];
      assert ks == front + [ks[|ks| - 1]];
      SumCountsAddOne(front, m, x);
    }
  }

  /** Counting every distinct key once accounts for every occurrence. */
  lemma {:induction false} SumCountsOfDistinct<K(!new)>(ks: seq<K>)
    ensures SumCounts(Distinct(ks), multiset(ks)) == |ks|
  {
    if |ks| > 0 {
      var front := ks[..|ks| - 1];
      var last := ks[|ks| - 1];
      assert ks == front + [last];
      var d := Distinct(front);
      SumCountsOfDistinct(front);
      SumCountsAddOne(d, multiset(front), last);
      if last !in d {
        assert Distinct(ks) == d + [last];
        assert (d + [last])[..|d|] == d;
      }
    }
  }

  lemma {:induction false} TotalOfGroupsOf<K(!new), V(!new)>(xs: seq<(K, V)>, ks: seq<K>)
    ensures Total(GroupsOf(xs, ks)) == SumCounts(ks, multiset(Keys(xs)))
  {
    if |ks| > 0 {
      var front := ks[..|ks| - 1];
      assert GroupsOf(xs, ks)[..|ks| - 1] == GroupsOf(xs, front);
      TotalOfGroupsOf(xs, front);
    }
  }

  /** Grouping partitions the input: the groups hold exactly as many values as there were rows. */
  lemma GroupByPartitions<K(!new), V(!new)>(xs: seq<(K, V)>)
    ensures Total(GroupBy(xs)) == |xs|
  {
    TotalOfGroupsOf(xs, Distinct(Keys(xs)));
    SumCountsOfDistinct(Keys(xs));
  }

  /** `df.select(...)` of computed columns: one output row per input row, in order. */
  function Project<A, B>(xs: seq<A>, f: A -> B): (ys: seq<B>)
    ensures |ys| == |xs|
    ensures forall i :: 0 <= i < |xs| ==> ys[i] == f(xs[i])
  {
    seq(|xs|, i requires 0 <= i < |xs| => f(xs[i]))
  }

  /** A projected row is the image of some input row, and every input row has its image. */
  lemma ProjectMembership<A(!new), B(!new)>(xs: seq<A>, f: A -> B)
    ensures forall y :: y in Project(xs, f) <==> exists x :: x in xs && y == f(x)
  {
    var ys := Project(xs, f);
    forall y | y in ys
      ensures exists x :: x in xs && y == f(x)
    {
      var i :| 0 <= i < |ys| && ys[i] == y;
      assert xs[i] in xs;
    }
    forall x | x in xs
      ensures f(x) in ys
    {
      var i :| 0 <= i < |xs| && xs[i] == x;
      assert ys[i] == f(x);
    }
  }
}
