/**
  The pandas `groupby(key)` operation on a sequence of rows: one group per distinct key,
  each holding the rows with that key in their original order, and the aggregation of a
  grouped table into a keyed table. pandas sorts the groups by key; the model lists them
  by first appearance instead; every grouped result here is a keyed map, a count or a
  mean over the groups, so no contract depends on the order of the groups.
 */
module Grouping {
  import opened Seqs

  datatype Group<K, T> = Group(key: K, items: seq<T>)

  /** The items of `xs` whose key is `k`, in their original order. */
  function Select<T(==,!new), K(==,!new)>(xs: seq<T>, key: T -> K, k: K): (r: seq<T>)
    ensures |r| <= |xs|
    ensures forall x :: x in r <==> x in xs && key(x) == k
    decreases |xs|
  {
    if |xs| == 0 then []
    else
      var n := |xs| - 1;
      assert xs == xs[..n] + [xs[n]];
      Select(xs[..n], key, k) + (if key(xs[n]) == k then [xs[n]] else [])
  }

  /** Extending a prefix by one element extends its selection by at most that element. */
  lemma SelectStep<T(!new), K(!new)>(xs: seq<T>, key: T -> K, k: K, i: nat)
    requires i < |xs|
    ensures Select(xs[..i + 1], key, k) == Select(xs[..i], key, k) + (if key(xs[i]) == k then [xs[i]] else [])
  {
    assert xs[..i + 1][..i] == xs[..i];
  }

  /** Elements of `xs[lo..hi]` that do not carry key `k` leave the selection unchanged. */
  lemma {:induction false} SelectSkip<T(!new), K(!new)>(xs: seq<T>, key: T -> K, k: K, lo: nat, hi: nat)
    requires lo <= hi <= |xs|
    requires forall q :: lo <= q < hi ==> key(xs[q]) != k
    ensures Select(xs[..hi], key, k) == Select(xs[..lo], key, k)
    decreases hi - lo
  {
    if lo < hi {
      SelectStep(xs, key, k, hi - 1);
      SelectSkip(xs, key, k, lo, hi - 1);
    }
  }

  /** A key that occurs selects at least one element. */
  lemma SelectPresent<T(!new), K(!new)>(xs: seq<T>, key: T -> K, k: K)
    requires k in KeysOf(xs, key)
    ensures |Select(xs, key, k)| > 0
  {
    var x :| x in xs && key(x) == k;
    assert x in Select(xs, key, k);
  }

  lemma SelectAll<T(!new), K(!new)>(xs: seq<T>, key: T -> K, k: K)
    ensures Select(xs[..|xs|], key, k) == Select(xs, key, k)
  {
    assert xs[..|xs|] == xs;
  }

  /** Selecting an empty key set. */
  lemma SelectAbsent<T(!new), K(!new)>(xs: seq<T>, key: T -> K, k: K)
    requires forall x :: x in xs ==> key(x) != k
    ensures Select(xs, key, k) == []
  {
    var r := Select(xs, key, k);
    assert forall i :: 0 <= i < |r| ==> r[i] in r;
  }

  /** Selection distributes over concatenation. */
  lemma {:induction false} SelectAppend<T(!new), K(!new)>(xs: seq<T>, ys: seq<T>, key: T -> K, k: K)
    ensures Select(xs + ys, key, k) == Select(xs, key, k) + Select(ys, key, k)
    decreases |ys|
  {
    if |ys| == 0 {
      assert xs + ys == xs;
    } else {
      var n := |ys| - 1;
      ConcatButLast(xs, ys);
      SelectAppend(xs, ys[..n], key, k);
    }
  }

  /** Rows that all carry key `k` are their own selection. */
  lemma {:induction false} SelectMatching<T(!new), K(!new)>(xs: seq<T>, key: T -> K, k: K)
    requires forall i :: 0 <= i < |xs| ==> key(xs[i]) == k
    ensures Select(xs, key, k) == xs
    decreases |xs|
  {
    if |xs| > 0 {
      var n := |xs| - 1;
      assert key(xs[n]) == k;
      assert Select(xs, key, k) == Select(xs[..n], key, k) + [xs[n]];
      SelectMatching(xs[..n], key, k);
      SplitLast(xs);
    }
  }

  /** Two sequences whose keys agree position by position select equally many items of each key. */
  lemma {:induction false} SelectCountAlong<T(!new), U(!new), K(!new)>(xs: seq<T>, ys: seq<U>, kx: T -> K, ky: U -> K, k: K)
    requires |xs| == |ys|
    requires forall i :: 0 <= i < |xs| ==> kx(xs[i]) == ky(ys[i])
    ensures |Select(xs, kx, k)| == |Select(ys, ky, k)|
    decreases |xs|
  {
    if |xs| > 0 {
      var n := |xs| - 1;
      assert kx(xs[n]) == ky(ys[n]);
      SelectCountAlong(xs[..n], ys[..n], kx, ky, k);
    }
  }

  function KeySet<K(==,!new), T(==,!new)>(gs: seq<Group<K, T>>): set<K>
  {
    set g | g in gs :: g.key
  }

  /** The set of keys that occur in `xs`. */
  function KeysOf<T(==,!new), K(==,!new)>(xs: seq<T>, key: T -> K): set<K>
  {
    set x | x in xs :: key(x)
  }

  /** The keys of a concatenation are the keys of its parts. */
  lemma KeysOfAppend<T(!new), K(!new)>(xs: seq<T>, ys: seq<T>, key: T -> K)
    ensures KeysOf(xs + ys, key) == KeysOf(xs, key) + KeysOf(ys, key)
  {
    forall k | k in KeysOf(xs + ys, key) ensures k in KeysOf(xs, key) + KeysOf(ys, key) {
      var z :| z in xs + ys && key(z) == k;
      if z in xs {
        assert k in KeysOf(xs, key);
      } else {
        assert k in KeysOf(ys, key);
      }
    }
    forall k | k in KeysOf(xs, key) + KeysOf(ys, key) ensures k in KeysOf(xs + ys, key) {
      if k in KeysOf(xs, key) {
        var z :| z in xs && key(z) == k;
        assert z in xs + ys;
      } else {
        var z :| z in ys && key(z) == k;
        assert z in xs + ys;
      }
    }
  }

  lemma KeysOfSingle<T(!new), K(!new)>(x: T, key: T -> K)
    ensures KeysOf([x], key) == {key(x)}
  {
    assert x in [x];
  }

  /** No two elements of `xs` share a key (a table whose key column is unique). */
  predicate UniqueKeys<T(!new), K(==,!new)>(xs: seq<T>, key: T -> K)
  {
    forall a, b :: 0 <= a < b < |xs| ==> key(xs[a]) != key(xs[b])
  }

  lemma UniqueKeysCons<T(!new), K(!new)>(x: T, xs: seq<T>, key: T -> K)
    ensures UniqueKeys([x] + xs, key) <==> key(x) !in KeysOf(xs, key) && UniqueKeys(xs, key)
  {
    var ys := [x] + xs;
    assert ys[0] == x;
    assert forall a :: 0 <= a < |xs| ==> ys[a + 1] == xs[a];
    if UniqueKeys(ys, key) {
      forall z | z in xs ensures key(z) != key(x) {
        var b :| 0 <= b < |xs| && xs[b] == z;
        assert key(ys[0]) != key(ys[b + 1]);
      }
      forall a, b | 0 <= a < b < |xs| ensures key(xs[a]) != key(xs[b]) {
        assert key(ys[a + 1]) != key(ys[b + 1]);
      }
      assert key(x) !in KeysOf(xs, key);
    }
    if key(x) !in KeysOf(xs, key) && UniqueKeys(xs, key) {
      forall a, b | 0 <= a < b < |ys| ensures key(ys[a]) != key(ys[b]) {
        assert ys[b] == xs[b - 1];
        assert xs[b - 1] in xs;
        if a > 0 {
          assert ys[a] == xs[a - 1];
        }
      }
    }
  }

  predicate KeysDistinct<K(==,!new), T(==,!new)>(gs: seq<Group<K, T>>)
  {
    forall i, j :: 0 <= i < j < |gs| ==> gs[i].key != gs[j].key
  }

  /** The items of the first group whose key is `k`; empty when there is none. */
  function Lookup<K(==,!new), T(==,!new)>(gs: seq<Group<K, T>>, k: K): seq<T>
    decreases |gs|
  {
    if |gs| == 0 then [] else if gs[0].key == k then gs[0].items else Lookup(gs[1..], k)
  }

  predicate NonEmptyGroups<K(==,!new), T(==,!new)>(gs: seq<Group<K, T>>)
  {
    forall g :: g in gs ==> |g.items| > 0
  }

  lemma KeySetCons<K(!new), T(!new)>(gs: seq<Group<K, T>>)
    requires |gs| > 0
    ensures KeySet(gs) == {gs[0].key} + KeySet(gs[1..])
  {
    assert forall g :: g in gs <==> g == gs[0] || g in gs[1..] by {
      assert gs == [gs[0]] + gs[1..];
    }
  }

  /** With distinct keys, the head's key occurs nowhere in the tail. */
  lemma HeadKeyFresh<K(!new), T(!new)>(gs: seq<Group<K, T>>)
    requires |gs| > 0
    requires KeysDistinct(gs)
    ensures gs[0].key !in KeySet(gs[1..])
  {
    forall g | g in gs[1..] ensures g.key != gs[0].key {
      var j :| 0 <= j < |gs[1..]| && gs[1..][j] == g;
      assert gs[j + 1] == g;
    }
  }

  /** A head group whose key is new, in front of a tail with distinct keys, keeps the keys distinct. */
  lemma ConsDistinct<K(!new), T(!new)>(head: Group<K, T>, rest: seq<Group<K, T>>)
    requires head.key !in KeySet(rest)
    requires KeysDistinct(rest)
    ensures KeysDistinct([head] + rest)
  {
    var r := [head] + rest;
    forall i, j | 0 <= i < j < |r| ensures r[i].key != r[j].key {
      assert r[j] == rest[j - 1];
      assert r[j] in rest;
      if i > 0 {
        assert r[i] == rest[i - 1];
      }
    }
  }

  /** Adds one row to the grouped table: to the group of its key, or as a new last group. */
  function Insert<T(==,!new), K(==,!new)>(gs: seq<Group<K, T>>, x: T, key: T -> K): (r: seq<Group<K, T>>)
    ensures InsertSpec(gs, x, key, r)
    decreases |gs|
  {
    if |gs| == 0 then
      var r := [Group(key(x), [x])];
      assert r[1..] == [];
      r
    else if gs[0].key == key(x) then
      var r := [gs[0].(items := gs[0].items + [x])] + gs[1..];
      InsertHere(gs, x, key, r);
      r
    else
      var rest := Insert(gs[1..], x, key);
      var r := [gs[0]] + rest;
      InsertLater(gs, x, key, rest, r);
      r
  }

  /** `r` is `gs` with `x` added to the group of its key. */
  ghost predicate InsertSpec<T(!new), K(!new)>(gs: seq<Group<K, T>>, x: T, key: T -> K, r: seq<Group<K, T>>)
  {
    && KeySet(r) == KeySet(gs) + {key(x)}
    && (forall k :: Lookup(r, k) == Lookup(gs, k) + (if k == key(x) then [x] else []))
    && (KeysDistinct(gs) ==> KeysDistinct(r))
    && (NonEmptyGroups(gs) ==> NonEmptyGroups(r))
  }

  lemma InsertHere<T(!new), K(!new)>(gs: seq<Group<K, T>>, x: T, key: T -> K, r: seq<Group<K, T>>)
    requires |gs| > 0 && gs[0].key == key(x)
    requires r == [gs[0].(items := gs[0].items + [x])] + gs[1..]
    ensures InsertSpec(gs, x, key, r)
  {
    assert r[1..] == gs[1..];
    KeySetCons(gs);
    KeySetCons(r);
  }

  lemma InsertLater<T(!new), K(!new)>(gs: seq<Group<K, T>>, x: T, key: T -> K, rest: seq<Group<K, T>>, r: seq<Group<K, T>>)
    requires |gs| > 0 && gs[0].key != key(x)
    requires InsertSpec(gs[1..], x, key, rest)
    requires r == [gs[0]] + rest
    ensures InsertSpec(gs, x, key, r)
  {
    assert r[1..] == rest;
    KeySetCons(gs);
    KeySetCons(r);
    if KeysDistinct(gs) {
      HeadKeyFresh(gs);
      assert KeysDistinct(gs[1..]);
      ConsDistinct(gs[0], rest);
    }
    if NonEmptyGroups(gs) {
      assert forall g :: g in gs[1..] ==> g in gs;
      assert forall g :: g in r ==> g == gs[0] || g in rest;
    }
  }

  /** In a table with distinct keys, looking up a group's key yields that group's items. */
  lemma {:induction false} LookupMember<K(!new), T(!new)>(gs: seq<Group<K, T>>, g: Group<K, T>)
    requires KeysDistinct(gs)
    requires g in gs
    ensures Lookup(gs, g.key) == g.items
    decreases |gs|
  {
    if gs[0] != g {
      assert g in gs[1..];
      HeadKeyFresh(gs);
      LookupMember(gs[1..], g);
    }
  }

  /**
    pandas `groupby(key)`: one group per distinct key (listed by first appearance,
    where pandas sorts by key), each holding exactly the rows with that key in their
    original order.
   */
  function GroupBy<T(==,!new), K(==,!new)>(xs: seq<T>, key: T -> K): (gs: seq<Group<K, T>>)
    ensures KeysDistinct(gs)
    ensures NonEmptyGroups(gs)
    ensures KeySet(gs) == KeysOf(xs, key)
    ensures forall k :: Lookup(gs, k) == Select(xs, key, k)
    decreases |xs|
  {
    if |xs| == 0 then []
    else
      var n := |xs| - 1;
      assert forall y :: y in xs <==> y in xs[..n] || y == xs[n] by {
        assert xs == xs[..n] + [xs[n]];
      }
      Insert(GroupBy(xs[..n], key), xs[n], key)
  }

  /** Every group of `GroupBy` holds exactly the rows carrying its key. */
  lemma GroupItems<T(!new), K(!new)>(xs: seq<T>, key: T -> K, g: Group<K, T>)
    requires g in GroupBy(xs, key)
    ensures g.items == Select(xs, key, g.key)
    ensures |g.items| > 0
  {
    LookupMember(GroupBy(xs, key), g);
  }

  /** Number of groups equals the number of distinct keys. */
  lemma {:induction false} GroupCount<K(!new), T(!new)>(gs: seq<Group<K, T>>)
    requires KeysDistinct(gs)
    ensures |gs| == |KeySet(gs)|
    decreases |gs|
  {
    if |gs| > 0 {
      KeySetCons(gs);
      GroupCount(gs[1..]);
      HeadKeyFresh(gs);
    }
  }

  /** Sum of `f` over all items of all groups. */
  function Total<K(==,!new), T(==,!new)>(gs: seq<Group<K, T>>, f: T -> real): real
    decreases |gs|
  {
    if |gs| == 0 then 0.0 else Sum(gs[0].items, f) + Total(gs[1..], f)
  }

  /** `Total` is the plain sum of a per-group function that sums `f` over the group. */
  lemma {:induction false} TotalIsSum<K(!new), T(!new)>(gs: seq<Group<K, T>>, f: T -> real, h: Group<K, T> -> real)
    requires forall g :: g in gs ==> h(g) == Sum(g.items, f)
    ensures Sum(gs, h) == Total(gs, f)
    decreases |gs|
  {
    if |gs| > 0 {
      SplitFirst(gs);
      SumCons(gs[0], gs[1..], h);
      TotalIsSum(gs[1..], f, h);
    }
  }

  lemma {:induction false} TotalInsert<T(!new), K(!new)>(gs: seq<Group<K, T>>, x: T, key: T -> K, f: T -> real)
    ensures Total(Insert(gs, x, key), f) == Total(gs, f) + f(x)
    decreases |gs|
  {
    var r := Insert(gs, x, key);
    if |gs| == 0 {
      assert r[1..] == [];
      SumAppend([], x, f);
    } else if gs[0].key == key(x) {
      assert r[1..] == gs[1..];
      SumAppend(gs[0].items, x, f);
    } else {
      assert r[1..] == Insert(gs[1..], x, key);
      TotalInsert(gs[1..], x, key, f);
    }
  }

  /** Grouping partitions the rows: summing per group and adding the groups up gives the plain sum. */
  lemma {:induction false} GroupByTotal<T(!new), K(!new)>(xs: seq<T>, key: T -> K, f: T -> real)
    ensures Total(GroupBy(xs, key), f) == Sum(xs, f)
    decreases |xs|
  {
    if |xs| > 0 {
      var n := |xs| - 1;
      GroupByTotal(xs[..n], key, f);
      TotalInsert(GroupBy(xs[..n], key), xs[n], key, f);
    }
  }

  /** Summing a per-group sum over the groups gives the plain sum over all rows. */
  lemma GroupSumIsSum<T(!new), K(!new)>(xs: seq<T>, key: T -> K, f: T -> real, h: Group<K, T> -> real)
    requires forall g :: h(g) == Sum(g.items, f)
    ensures Sum(GroupBy(xs, key), h) == Sum(xs, f)
  {
    TotalIsSum(GroupBy(xs, key), f, h);
    GroupByTotal(xs, key, f);
  }

  /** Non-empty rows form as many groups as they have distinct keys, and at least one. */
  lemma GroupsNonEmpty<T(!new), K(!new)>(xs: seq<T>, key: T -> K)
    requires |xs| > 0
    ensures |GroupBy(xs, key)| == |KeysOf(xs, key)| > 0
  {
    var gs := GroupBy(xs, key);
    GroupCount(gs);
    assert xs[0] in xs;
    assert key(xs[0]) in KeySet(gs);
  }

  lemma {:induction false} SubsetCard<T>(a: set<T>, b: set<T>)
    requires a <= b
    ensures |a| <= |b|
    decreases |a|
  {
    if a != {} {
      var x :| x in a;
      SubsetCard(a - {x}, b - {x});
    }
  }

  /** Rows whose keys all lie in `s` form at most `|s|` groups. */
  lemma GroupCountBound<T(!new), K(!new)>(xs: seq<T>, key: T -> K, s: set<K>)
    requires forall x :: x in xs ==> key(x) in s
    ensures |GroupBy(xs, key)| <= |s|
  {
    GroupCount(GroupBy(xs, key));
    SubsetCard(KeysOf(xs, key), s);
  }

  /** A group's keys are among the keys of the rows it was grouped from. */
  lemma GroupKeysWithin<T(!new), K(!new), J(!new)>(xs: seq<T>, key: T -> K, g: Group<K, T>, other: T -> J)
    requires g in GroupBy(xs, key)
    ensures 1 <= |KeysOf(g.items, other)| <= |KeysOf(xs, other)|
  {
    GroupItems(xs, key, g);
    assert g.items[0] in g.items;
    assert other(g.items[0]) in KeysOf(g.items, other);
    SubsetCard(KeysOf(g.items, other), KeysOf(xs, other));
  }

  /** Splitting off the last group keeps the rest distinct and apart from its key. */
  lemma DistinctButLast<K(!new), T(!new)>(gs: seq<Group<K, T>>)
    requires |gs| > 0
    ensures forall g :: g in gs <==> g in gs[..|gs| - 1] || g == gs[|gs| - 1]
    ensures KeySet(gs) == KeySet(gs[..|gs| - 1]) + {gs[|gs| - 1].key}
    ensures KeysDistinct(gs) ==> KeysDistinct(gs[..|gs| - 1])
    ensures KeysDistinct(gs) ==> forall g :: g in gs[..|gs| - 1] ==> g.key != gs[|gs| - 1].key
  {
    SplitLast(gs);
  }

  /** pandas `groupby(key).agg(h)`: the keyed table of one aggregate per group. */
  function Aggregate<K(==,!new), T(==,!new), V>(gs: seq<Group<K, T>>, h: seq<T> -> V): (m: map<K, V>)
    ensures m.Keys == KeySet(gs)
    ensures KeysDistinct(gs) ==> forall g :: g in gs ==> m[g.key] == h(g.items)
    decreases |gs|
  {
    if |gs| == 0 then map[]
    else
      var n := |gs| - 1;
      DistinctButLast(gs);
      Aggregate(gs[..n], h)[gs[n].key := h(gs[n].items)]
  }

  /** Aggregating `GroupBy(xs, key)`: keys are the keys of `xs`, values the aggregate of each key's rows. */
  lemma AggregateGroupBy<T(!new), K(!new), V>(xs: seq<T>, key: T -> K, h: seq<T> -> V)
    ensures Aggregate(GroupBy(xs, key), h).Keys == KeysOf(xs, key)
    ensures forall k :: k in KeysOf(xs, key) ==> Aggregate(GroupBy(xs, key), h)[k] == h(Select(xs, key, k))
  {
    var gs := GroupBy(xs, key);
    forall k | k in KeysOf(xs, key) ensures Aggregate(gs, h)[k] == h(Select(xs, key, k)) {
      var g :| g in gs && g.key == k;
      GroupItems(xs, key, g);
    }
  }
}
