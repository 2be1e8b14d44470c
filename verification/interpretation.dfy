/**
  Post-processing of per-cluster permutation importances in
  `ClusterInterpretationService`: the top-5 features of each cluster, the exploded
  table ranked within each cluster, the exclusion of zero-score features, and the
  detection of anomaly clusters whose five top scores are all zero.
 */
module Interpretation {
  import opened Wrappers
  import opened Seqs
  import opened Grouping

  /** One entry of `cluster_results`: a cluster and the mean importance of each feature. */
  datatype ClusterImportance = ClusterImportance(cluster: int, importances: seq<real>)

  /** One entry of `mapped_cluster_factor`. */
  datatype MappedCluster = MappedCluster(cluster: int, features: seq<string>, scores: seq<real>)

  function Min(a: nat, b: nat): nat { if a <= b then a else b }

  // ---------------------------------------------------------------- map_feature_importance

  /** The number of features kept per cluster. */
  const TopCount: nat := 5

  predicate InRange(scores: seq<real>, r: seq<nat>)
  {
    forall k :: 0 <= k < |r| ==> r[k] < |scores|
  }

  predicate Distinct(r: seq<nat>)
  {
    forall a, b :: 0 <= a < b < |r| ==> r[a] != r[b]
  }

  /** Indices in non-increasing order of score. */
  predicate SortedByScore(scores: seq<real>, r: seq<nat>)
    requires InRange(scores, r)
  {
    forall a, b :: 0 <= a < b < |r| ==> scores[r[a]] >= scores[r[b]]
  }

  /**
    Inserts index `i` ahead of the first index whose score is not above its own; fed
    increasing indices, ties end up with the higher index first, as reversing a
    stable ascending `argsort` would leave them.
   */
  function InsertRanked(scores: seq<real>, r: seq<nat>, i: nat): (q: seq<nat>)
    requires i < |scores| && InRange(scores, r)
    ensures |q| == |r| + 1
    ensures forall x :: x in q <==> x == i || x in r
    ensures InRange(scores, q)
    ensures SortedByScore(scores, r) ==> SortedByScore(scores, q)
    ensures Distinct(r) && i !in r ==> Distinct(q)
    decreases |r|
  {
    if |r| == 0 then [i]
    else if scores[i] >= scores[r[0]] then
      var q := [i] + r;
      assert forall k :: 0 < k < |q| ==> q[k] == r[k - 1];
      assert forall x :: x in q <==> x == i || x in r;
      q
    else
      var rest := InsertRanked(scores, r[1..], i);
      var q := [r[0]] + rest;
      assert forall k :: 0 < k < |q| ==> q[k] == rest[k - 1];
      InsertRankedCons(scores, r, i, rest, q);
      q
  }

  lemma InsertRankedCons(scores: seq<real>, r: seq<nat>, i: nat, rest: seq<nat>, q: seq<nat>)
    requires i < |scores| && InRange(scores, r) && |r| > 0
    requires scores[i] < scores[r[0]]
    requires |rest| == |r|
    requires forall x :: x in rest <==> x == i || x in r[1..]
    requires InRange(scores, rest)
    requires SortedByScore(scores, r[1..]) ==> SortedByScore(scores, rest)
    requires Distinct(r[1..]) && i !in r[1..] ==> Distinct(rest)
    requires q == [r[0]] + rest
    ensures forall x :: x in q <==> x == i || x in r
    ensures InRange(scores, q)
    ensures SortedByScore(scores, r) ==> SortedByScore(scores, q)
    ensures Distinct(r) && i !in r ==> Distinct(q)
  {
    assert r == [r[0]] + r[1..];
    assert forall k :: 0 < k < |q| ==> q[k] == rest[k - 1];
    assert forall x :: x in r <==> x == r[0] || x in r[1..];
    if SortedByScore(scores, r) {
      HeadAboveRest(scores, r, i, rest);
    }
    if Distinct(r) && i !in r {
      HeadNotInRest(r, i, rest);
    }
  }

  /** Every index of `rest` is `i` or from the tail of `r`, so the head of sorted `r` scores at least as high. */
  lemma HeadAboveRest(scores: seq<real>, r: seq<nat>, i: nat, rest: seq<nat>)
    requires i < |scores| && InRange(scores, r) && |r| > 0 && InRange(scores, rest)
    requires scores[i] < scores[r[0]]
    requires forall x :: x in rest <==> x == i || x in r[1..]
    requires SortedByScore(scores, r)
    ensures forall k :: 0 <= k < |rest| ==> scores[r[0]] >= scores[rest[k]]
  {
    forall k | 0 <= k < |rest| ensures scores[r[0]] >= scores[rest[k]] {
      assert rest[k] in rest;
      if rest[k] != i {
        var j :| 0 <= j < |r[1..]| && r[1..][j] == rest[k];
        assert r[j + 1] == rest[k];
      }
    }
  }

  /** The head of distinct `r` occurs neither as `i` nor in the tail, so not in `rest`. */
  lemma HeadNotInRest(r: seq<nat>, i: nat, rest: seq<nat>)
    requires |r| > 0 && Distinct(r) && i !in r
    requires forall x :: x in rest <==> x == i || x in r[1..]
    ensures forall k :: 0 <= k < |rest| ==> rest[k] != r[0]
  {
    forall k | 0 <= k < |rest| ensures rest[k] != r[0] {
      assert rest[k] in rest;
      if rest[k] != i {
        var j :| 0 <= j < |r[1..]| && r[1..][j] == rest[k];
        assert r[j + 1] == rest[k];
      }
    }
  }

  /** Indices `0 .. n - 1`, ranked by non-increasing score. */
  function RankIndices(scores: seq<real>, n: nat): (r: seq<nat>)
    requires n <= |scores|
    ensures |r| == n
    ensures forall x: nat :: x in r <==> x < n
    ensures InRange(scores, r)
    ensures SortedByScore(scores, r)
    ensures Distinct(r)
  {
    if n == 0 then [] else InsertRanked(scores, RankIndices(scores, n - 1), n - 1)
  }

  /**
    The indices of the top `min(5, n)` scores (`argsort()[::-1][:5]`): distinct,
    in non-increasing order of score, and no index left out scores above any
    index picked.
   */
  function TopIndices(scores: seq<real>): (p: seq<nat>)
    ensures |p| == Min(TopCount, |scores|)
    ensures InRange(scores, p)
    ensures Distinct(p)
    ensures SortedByScore(scores, p)
    ensures forall x, k :: 0 <= x < |scores| && x !in p && 0 <= k < |p| ==> scores[x] <= scores[p[k]]
  {
    var ranked := RankIndices(scores, |scores|);
    var p := ranked[..Min(TopCount, |scores|)];
    forall x, k | 0 <= x < |scores| && x !in p && 0 <= k < |p| ensures scores[x] <= scores[p[k]] {
      assert x in ranked;
      var j :| 0 <= j < |ranked| && ranked[j] == x;
      assert j >= |p|;
    }
    p
  }

  /** Position `k` of `m` holds the column named by index `p[k]` and that column's importance. */
  predicate TakesIndices(c: ClusterImportance, columns: seq<string>, m: MappedCluster, p: seq<nat>)
  {
    && |m.features| == |m.scores| == |p|
    && forall k :: 0 <= k < |p| ==>
         && p[k] < |c.importances| && p[k] < |columns|
         && m.features[k] == columns[p[k]] && m.scores[k] == c.importances[p[k]]
  }

  /** `map_feature_importance` for one cluster. */
  function MapCluster(c: ClusterImportance, columns: seq<string>): (m: MappedCluster)
    requires |c.importances| <= |columns|
    ensures m.cluster == c.cluster
    ensures |m.features| == |m.scores| == Min(TopCount, |c.importances|)
    ensures forall a, b :: 0 <= a < b < |m.scores| ==> m.scores[a] >= m.scores[b]
    ensures forall k :: 0 <= k < |m.scores| ==>
              PairOf(c.importances, columns, m.features[k], m.scores[k])
    ensures forall x :: 0 <= x < |c.importances| && x !in TopIndices(c.importances) ==>
              forall k :: 0 <= k < |m.scores| ==> c.importances[x] <= m.scores[k]
    ensures TakesIndices(c, columns, m, TopIndices(c.importances))
  {
    var p := TopIndices(c.importances);
    var m := MappedCluster(c.cluster,
                           seq(|p|, k requires 0 <= k < |p| => columns[p[k]]),
                           seq(|p|, k requires 0 <= k < |p| => c.importances[p[k]]));
    MapClusterFacts(c, columns, p, m);
    m
  }

  /** The pairs picked by the top indices keep their order, their pairing and the top property. */
  lemma MapClusterFacts(c: ClusterImportance, columns: seq<string>, p: seq<nat>, m: MappedCluster)
    requires |c.importances| <= |columns|
    requires p == TopIndices(c.importances)
    requires m.cluster == c.cluster && |m.features| == |p| && |m.scores| == |p|
    requires forall k :: 0 <= k < |p| ==> m.features[k] == columns[p[k]] && m.scores[k] == c.importances[p[k]]
    ensures forall a, b :: 0 <= a < b < |m.scores| ==> m.scores[a] >= m.scores[b]
    ensures forall k :: 0 <= k < |m.scores| ==>
              PairOf(c.importances, columns, m.features[k], m.scores[k])
    ensures forall x :: 0 <= x < |c.importances| && x !in p ==>
              forall k :: 0 <= k < |m.scores| ==> c.importances[x] <= m.scores[k]
  {
    assert InRange(c.importances, p);
    forall k | 0 <= k < |m.scores|
      ensures PairOf(c.importances, columns, m.features[k], m.scores[k])
    {
      var x := p[k];
      assert 0 <= x < |c.importances| && m.features[k] == columns[x] && m.scores[k] == c.importances[x];
    }
  }

  /** `feature` names a column whose importance is `score`. */
  predicate PairOf(scores: seq<real>, columns: seq<string>, feature: string, score: real)
  {
    exists x :: 0 <= x < |scores| && x < |columns| && feature == columns[x] && score == scores[x]
  }

  /**
    `map_feature_importance`: one entry per cluster, in the order of the importance
    results, each holding that cluster's top features and their scores.
   */
  function MapFeatureImportance(results: seq<ClusterImportance>, columns: seq<string>): (r: seq<MappedCluster>)
    requires forall i :: 0 <= i < |results| ==> |results[i].importances| <= |columns|
    ensures |r| == |results|
    ensures forall i :: 0 <= i < |r| ==> r[i] == MapCluster(results[i], columns)
  {
    seq(|results|, i requires 0 <= i < |results| => MapCluster(results[i], columns))
  }

  // ---------------------------------------------------------------- build_explode_cluster_df

  /** A row of the exploded table before ranking; None is pandas' NaN. */
  datatype ExplodedRow = ExplodedRow(cluster: int, feature: Option<string>, score: Option<real>)

  /** A row of `cluster_df`. */
  datatype ClusterRow = ClusterRow(cluster: int, feature: Option<string>, score: Option<real>, rank: nat)

  predicate Paired(m: MappedCluster)
  {
    |m.features| == |m.scores|
  }

  predicate AllPaired(ms: seq<MappedCluster>)
  {
    forall i :: 0 <= i < |ms| ==> Paired(ms[i])
  }

  /** `explode` of one entry: a row per feature, or one NaN row for empty lists. */
  function ExplodeEntry(m: MappedCluster): (rows: seq<ExplodedRow>)
    requires Paired(m)
    ensures |rows| == if |m.features| == 0 then 1 else |m.features|
    ensures forall k :: 0 <= k < |rows| ==> rows[k].cluster == m.cluster
    ensures |m.features| == 0 ==> rows == [ExplodedRow(m.cluster, None, None)]
  {
    if |m.features| == 0 then [ExplodedRow(m.cluster, None, None)]
    else seq(|m.features|, k requires 0 <= k < |m.features| => ExplodedRow(m.cluster, Some(m.features[k]), Some(m.scores[k])))
  }

  /** The `k`-th exploded row of an entry holds its `k`-th feature and that feature's score. */
  lemma ExplodeEntryRow(m: MappedCluster, k: nat)
    requires Paired(m) && k < |m.features|
    ensures k < |ExplodeEntry(m)|
    ensures ExplodeEntry(m)[k] == ExplodedRow(m.cluster, Some(m.features[k]), Some(m.scores[k]))
  {
  }

  function EntryCluster(m: MappedCluster): int { m.cluster }

  /** The rows `explode` gives one entry: one per feature, or the single missing-value row. */
  function EntryRowCount(m: MappedCluster): nat
  {
    if |m.features| == 0 then 1 else |m.features|
  }

  /** The rows `explode` gives a whole list: the sum of the entries' row counts. */
  function RowCount(ms: seq<MappedCluster>): (n: nat)
    ensures n >= |ms|
  {
    if |ms| == 0 then 0 else RowCount(ms[..|ms| - 1]) + EntryRowCount(ms[|ms| - 1])
  }

  /**
    `explode` of the whole list: no entries give no rows, and every entry gives its
    own row count, so at least one (the layout is `ExplodeSnoc` and `ExplodeLayout`,
    the clusters `ExplodeClusterSet` and `ExplodeOfCluster`).
   */
  function Explode(ms: seq<MappedCluster>): (r: seq<ExplodedRow>)
    requires AllPaired(ms)
    ensures |ms| == 0 ==> r == []
    ensures |r| == RowCount(ms) >= |ms|
    decreases |ms|
  {
    if |ms| == 0 then [] else Explode(ms[..|ms| - 1]) + ExplodeEntry(ms[|ms| - 1])
  }

  /** One more entry appends exactly that entry's rows. */
  lemma ExplodeSnoc(ms: seq<MappedCluster>, m: MappedCluster)
    requires AllPaired(ms)
    requires Paired(m)
    ensures Explode(ms + [m]) == Explode(ms) + ExplodeEntry(m)
  {
    assert (ms + [m])[..|ms|] == ms;
  }

  /** `explode` distributes over concatenation: each part's rows keep their place. */
  lemma {:induction false} ExplodeConcat(a: seq<MappedCluster>, b: seq<MappedCluster>)
    requires AllPaired(a)
    requires AllPaired(b)
    ensures Explode(a + b) == Explode(a) + Explode(b)
    decreases |b|
  {
    if |b| == 0 {
      assert a + b == a;
    } else {
      ExplodeConcat(a, b[..|b| - 1]);
      ExplodeConcatStep(a, b);
    }
  }

  /** The step of `ExplodeConcat`: from `b` without its last entry to `b`. */
  lemma ExplodeConcatStep(a: seq<MappedCluster>, b: seq<MappedCluster>)
    requires AllPaired(a)
    requires AllPaired(b)
    requires |b| > 0
    requires Explode(a + b[..|b| - 1]) == Explode(a) + Explode(b[..|b| - 1])
    ensures Explode(a + b) == Explode(a) + Explode(b)
  {
    var init, last := b[..|b| - 1], b[|b| - 1];
    ConcatButLast(a, b);
    PairedConcat(a, b);
    ConcatAssoc(Explode(a), Explode(init), ExplodeEntry(last));
  }

  lemma PairedConcat(a: seq<MappedCluster>, b: seq<MappedCluster>)
    requires AllPaired(a)
    requires AllPaired(b)
    ensures AllPaired(a + b)
  {
  }

  /** The exploded rows carry exactly the entries' clusters. */
  lemma {:induction false} ExplodeClusterSet(ms: seq<MappedCluster>)
    requires AllPaired(ms)
    ensures KeysOf(Explode(ms), RowCluster) == KeysOf(ms, EntryCluster)
    decreases |ms|
  {
    if |ms| > 0 {
      var init := ms[..|ms| - 1];
      var last := ms[|ms| - 1];
      ExplodeClusterSet(init);
      assert ms == init + [last];
      KeysOfAppend(init, [last], EntryCluster);
      KeysOfSingle(last, EntryCluster);
      KeysOfAppend(Explode(init), ExplodeEntry(last), RowCluster);
      EntryRowsCluster(last);
    }
  }

  /** The rows of one entry carry just its cluster. */
  lemma EntryRowsCluster(m: MappedCluster)
    requires Paired(m)
    ensures KeysOf(ExplodeEntry(m), RowCluster) == {m.cluster}
  {
    var rows := ExplodeEntry(m);
    assert rows[0] in rows;
  }

  function RowCluster(r: ExplodedRow): int { r.cluster }

  /** `groupby("cluster").cumcount() + 1`: one plus the earlier rows of the same cluster. */
  function RankRows(rows: seq<ExplodedRow>): (r: seq<ClusterRow>)
    ensures |r| == |rows|
    ensures forall i :: 0 <= i < |r| ==> r[i].rank >= 1
    ensures forall i :: 0 <= i < |r| ==>
              r[i].cluster == rows[i].cluster && r[i].feature == rows[i].feature && r[i].score == rows[i].score
  {
    seq(|rows|, i requires 0 <= i < |rows| =>
      ClusterRow(rows[i].cluster, rows[i].feature, rows[i].score, |Select(rows[..i], RowCluster, rows[i].cluster)| + 1))
  }

  /**
    `build_explode_cluster_df`: the exploded rows in order, each ranked at least 1;
    every entry has a row and every row belongs to an entry's cluster (the ranks
    themselves are `ExplodeRank`, the rows per cluster `ClusterTableRows`).
   */
  function BuildExplodeClusterTable(ms: seq<MappedCluster>): (r: seq<ClusterRow>)
    requires AllPaired(ms)
    ensures |r| == |Explode(ms)| == RowCount(ms) >= |ms|
    ensures forall i :: 0 <= i < |r| ==> r[i].rank >= 1
    ensures forall i :: 0 <= i < |r| ==> r[i].cluster in KeysOf(ms, EntryCluster)
    ensures forall c :: c in KeysOf(ms, EntryCluster) ==> exists i :: 0 <= i < |r| && r[i].cluster == c
    ensures forall i :: 0 <= i < |r| ==>
              && r[i].cluster == Explode(ms)[i].cluster
              && r[i].feature == Explode(ms)[i].feature
              && r[i].score == Explode(ms)[i].score
  {
    ExplodeClusterSet(ms);
    RankedClusters(Explode(ms));
    RankRows(Explode(ms))
  }

  function TableCluster(r: ClusterRow): int { r.cluster }

  /** Ranking keeps the set of clusters: each row's cluster occurs, and each cluster has a row. */
  lemma RankedClusters(rows: seq<ExplodedRow>)
    ensures forall i :: 0 <= i < |RankRows(rows)| ==> RankRows(rows)[i].cluster in KeysOf(rows, RowCluster)
    ensures forall c :: c in KeysOf(rows, RowCluster) ==>
              exists i :: 0 <= i < |RankRows(rows)| && RankRows(rows)[i].cluster == c
  {
    var r := RankRows(rows);
    assert forall i :: 0 <= i < |rows| ==> rows[i] in rows;
    forall c | c in KeysOf(rows, RowCluster) ensures exists i :: 0 <= i < |r| && r[i].cluster == c {
      var x :| x in rows && RowCluster(x) == c;
      var i :| 0 <= i < |rows| && rows[i] == x;
      assert r[i].cluster == c;
    }
  }

  /**
    With distinct clusters, the table holds exactly as many rows of entry `e`'s
    cluster as `explode` gives that entry: one per feature, or one for no features.
   */
  lemma ClusterTableRows(ms: seq<MappedCluster>, e: nat)
    requires AllPaired(ms)
    requires DistinctClusters(ms) && e < |ms|
    ensures |Select(BuildExplodeClusterTable(ms), TableCluster, ms[e].cluster)| == EntryRowCount(ms[e])
  {
    ExplodeOfCluster(ms, e);
    TableClusterCount(ms, ms[e].cluster);
  }

  /** The table has as many rows of each cluster as the exploded rows it ranks. */
  lemma TableClusterCount(ms: seq<MappedCluster>, c: int)
    requires AllPaired(ms)
    ensures |Select(BuildExplodeClusterTable(ms), TableCluster, c)| == |Select(Explode(ms), RowCluster, c)|
  {
    SelectCountAlong(Explode(ms), BuildExplodeClusterTable(ms), RowCluster, TableCluster, c);
  }

  /**
    With distinct clusters, the exploded rows of entry `e`'s cluster are exactly the
    rows of that entry, in feature order: no entry's rows are lost or repeated.
   */
  lemma ExplodeOfCluster(ms: seq<MappedCluster>, e: nat)
    requires AllPaired(ms)
    requires DistinctClusters(ms) && e < |ms|
    ensures Select(Explode(ms), RowCluster, ms[e].cluster) == ExplodeEntry(ms[e])
  {
    var c := ms[e].cluster;
    var before, after := ms[..e], ms[e + 1..];
    SplitAt(ms, e);
    ExplodeAround(before, ms[e], after);
    OthersLackCluster(ms, e);
    ExplodeWithout(before, c);
    ExplodeWithout(after, c);
    SelectBetween(Explode(before), ExplodeEntry(ms[e]), Explode(after), c);
  }

  /** An entry's rows sit between the rows of the entries before it and those after it. */
  lemma ExplodeAround(before: seq<MappedCluster>, m: MappedCluster, after: seq<MappedCluster>)
    requires AllPaired(before) && Paired(m) && AllPaired(after)
    ensures AllPaired((before + [m]) + after)
    ensures Explode((before + [m]) + after) == (Explode(before) + ExplodeEntry(m)) + Explode(after)
  {
    ExplodeSnoc(before, m);
    PairedConcat(before, [m]);
    PairedConcat(before + [m], after);
    ExplodeConcat(before + [m], after);
  }

  /** Rows of cluster `c` flanked by rows of other clusters are the whole selection of `c`. */
  lemma SelectBetween(before: seq<ExplodedRow>, mid: seq<ExplodedRow>, after: seq<ExplodedRow>, c: int)
    requires forall x :: x in before ==> RowCluster(x) != c
    requires forall k :: 0 <= k < |mid| ==> mid[k].cluster == c
    requires forall x :: x in after ==> RowCluster(x) != c
    ensures Select((before + mid) + after, RowCluster, c) == mid
  {
    SelectAbsent(before, RowCluster, c);
    SelectAbsent(after, RowCluster, c);
    SelectMatching(mid, RowCluster, c);
    SelectAppend(before, mid, RowCluster, c);
    SelectAppend(before + mid, after, RowCluster, c);
  }

  /** With distinct clusters, no entry before or after `e` carries `e`'s cluster. */
  lemma OthersLackCluster(ms: seq<MappedCluster>, e: nat)
    requires DistinctClusters(ms) && e < |ms|
    ensures ms[e].cluster !in KeysOf(ms[..e], EntryCluster)
    ensures ms[e].cluster !in KeysOf(ms[e + 1..], EntryCluster)
  {
    forall x | x in ms[..e] ensures EntryCluster(x) != ms[e].cluster {
      var j :| 0 <= j < e && ms[..e][j] == x;
      assert ms[j] == x;
    }
    forall x | x in ms[e + 1..] ensures EntryCluster(x) != ms[e].cluster {
      var j :| 0 <= j < |ms| - e - 1 && ms[e + 1..][j] == x;
      assert ms[e + 1 + j] == x;
    }
  }

  predicate DistinctClusters(ms: seq<MappedCluster>)
  {
    forall a, b :: 0 <= a < b < |ms| ==> ms[a].cluster != ms[b].cluster
  }

  /**
    With distinct clusters, the `k`-th feature of entry `e` sits right after the rows
    of the entries before it, carries that feature and its own score, and is ranked
    `k + 1` within its cluster.
   */
  lemma ExplodeRank(ms: seq<MappedCluster>, e: nat, k: nat)
    requires AllPaired(ms)
    requires DistinctClusters(ms)
    requires e < |ms| && k < |ms[e].features|
    ensures |Explode(ms[..e])| + k < |BuildExplodeClusterTable(ms)|
    ensures BuildExplodeClusterTable(ms)[|Explode(ms[..e])| + k]
            == ClusterRow(ms[e].cluster, Some(ms[e].features[k]), Some(ms[e].scores[k]), k + 1)
  {
    var rows := Explode(ms);
    var i := |Explode(ms[..e])| + k;
    ExplodeLayout(ms, e, k);
    EarlierOfCluster(ms, e, k);
    assert |Select(rows[..i], RowCluster, ms[e].cluster)| == k;
  }

  /** With distinct clusters, the rows before entry `e`'s `k`-th row that share its cluster are its first `k` rows. */
  lemma EarlierOfCluster(ms: seq<MappedCluster>, e: nat, k: nat)
    requires AllPaired(ms)
    requires DistinctClusters(ms)
    requires e < |ms| && k < |ExplodeEntry(ms[e])|
    requires |Explode(ms[..e])| + k < |Explode(ms)|
    requires Explode(ms)[..|Explode(ms[..e])| + k] == Explode(ms[..e]) + ExplodeEntry(ms[e])[..k]
    ensures Select(Explode(ms)[..|Explode(ms[..e])| + k], RowCluster, ms[e].cluster) == ExplodeEntry(ms[e])[..k]
  {
    var c := ms[e].cluster;
    var before := Explode(ms[..e]);
    var head := ExplodeEntry(ms[e])[..k];
    assert Select(before, RowCluster, c) == [] by {
      OthersLackCluster(ms, e);
      ExplodeWithout(ms[..e], c);
      SelectAbsent(before, RowCluster, c);
    }
    assert Select(head, RowCluster, c) == head by {
      SelectMatching(head, RowCluster, c);
    }
    SelectAppend(before, head, RowCluster, c);
    assert [] + head == head;
  }

  /** A cluster no entry names has no exploded row. */
  lemma ExplodeWithout(ms: seq<MappedCluster>, c: int)
    requires AllPaired(ms)
    requires c !in KeysOf(ms, EntryCluster)
    ensures forall x :: x in Explode(ms) ==> RowCluster(x) != c
  {
    ExplodeClusterSet(ms);
  }

  /** Entry `e`'s rows follow the rows of the entries before it. */
  lemma ExplodeLayout(ms: seq<MappedCluster>, e: nat, k: nat)
    requires AllPaired(ms)
    requires e < |ms| && k < |ExplodeEntry(ms[e])|
    ensures |Explode(ms[..e])| + k < |Explode(ms)|
    ensures Explode(ms)[|Explode(ms[..e])| + k] == ExplodeEntry(ms[e])[k]
    ensures Explode(ms)[..|Explode(ms[..e])| + k] == Explode(ms[..e]) + ExplodeEntry(ms[e])[..k]
  {
    SplitAt(ms, e);
    ExplodeAround(ms[..e], ms[e], ms[e + 1..]);
    InsideMiddle(Explode(ms[..e]), ExplodeEntry(ms[e]), Explode(ms[e + 1..]), k);
  }

  // ---------------------------------------------------------------- exclude_unimportant_feature

  /** `(score == 0).sum()`. */
  function ZeroCount(s: seq<real>): (n: nat)
    ensures n <= |s|
    decreases |s|
  {
    if |s| == 0 then 0 else ZeroCount(s[..|s| - 1]) + (if s[|s| - 1] == 0.0 then 1 else 0)
  }

  /** `(score != 0).sum()`. */
  function NonZeroCount(s: seq<real>): (n: nat)
    ensures n + ZeroCount(s) == |s|
    decreases |s|
  {
    if |s| == 0 then 0 else NonZeroCount(s[..|s| - 1]) + (if s[|s| - 1] != 0.0 then 1 else 0)
  }

  /** Python slicing `xs[:n]`, which stops at the end of the list. */
  function Take<T>(xs: seq<T>, n: nat): (r: seq<T>)
    ensures |r| == Min(n, |xs|)
    ensures r <= xs
  {
    if n <= |xs| then xs[..n] else xs
  }

  /** The test of line 418: exactly five scores are zero. */
  predicate Unimportant(m: MappedCluster)
  {
    ZeroCount(m.scores) == 5
  }

  /** The kept entry: both lists cut to the number of non-zero scores. */
  function Trim(m: MappedCluster): MappedCluster
  {
    var v := NonZeroCount(m.scores);
    MappedCluster(m.cluster, Take(m.features, v), Take(m.scores, v))
  }

  /**
    `exclude_unimportant_feature`: drops exactly the entries with five zero scores
    and trims every other one, keeping their order (see `ExcludeConcat`).
   */
  function ExcludeUnimportant(ms: seq<MappedCluster>): (r: seq<MappedCluster>)
    ensures |r| <= |ms|
    ensures forall x :: x in r <==> exists m :: m in ms && !Unimportant(m) && x == Trim(m)
    ensures |r| == |ms| <==> forall i :: 0 <= i < |ms| ==> !Unimportant(ms[i])
    decreases |ms|
  {
    if |ms| == 0 then []
    else
      var rest := ExcludeUnimportant(ms[1..]);
      assert forall m :: m in ms <==> m == ms[0] || m in ms[1..] by {
        assert ms == [ms[0]] + ms[1..];
      }
      assert (forall i :: 0 <= i < |ms| ==> !Unimportant(ms[i])) <==>
             !Unimportant(ms[0]) && forall i :: 0 <= i < |ms[1..]| ==> !Unimportant(ms[1..][i]) by {
        assert forall i :: 0 < i < |ms| ==> ms[i] == ms[1..][i - 1];
      }
      if Unimportant(ms[0]) then rest
      else
        var r := [Trim(ms[0])] + rest;
        assert forall x :: x in r <==> x == Trim(ms[0]) || x in rest;
        r
  }

  /** One entry: dropped when unimportant, otherwise kept trimmed. */
  lemma ExcludeSingle(m: MappedCluster)
    ensures ExcludeUnimportant([m]) == if Unimportant(m) then [] else [Trim(m)]
  {
    assert [m][1..] == [];
  }

  /**
    Excluding distributes over concatenation, so the kept entries stay in their
    input order: together with `ExcludeSingle` this pins the result down to the
    trimmed important entries, in order.
   */
  lemma {:induction false} ExcludeConcat(a: seq<MappedCluster>, b: seq<MappedCluster>)
    ensures ExcludeUnimportant(a + b) == ExcludeUnimportant(a) + ExcludeUnimportant(b)
    decreases |a|
  {
    if |a| == 0 {
      assert a + b == b;
    } else {
      assert (a + b)[0] == a[0];
      assert (a + b)[1..] == a[1..] + b;
      ExcludeConcat(a[1..], b);
    }
  }

  /** In a non-increasing list whose last score is non-zero and non-negative, no score is zero. */
  lemma {:induction false} NoZeroBeforePositive(s: seq<real>)
    requires |s| > 0
    requires forall a, b :: 0 <= a < b < |s| ==> s[a] >= s[b]
    requires s[|s| - 1] > 0.0
    ensures NonZeroCount(s) == |s|
    decreases |s|
  {
    if |s| > 1 {
      NoZeroBeforePositive(s[..|s| - 1]);
    }
  }

  /**
    On non-negative scores in non-increasing order (what `map_feature_importance`
    produces when no importance is negative) the kept prefix is exactly the
    positive scores.
   */
  lemma {:induction false} TrimKeepsPositive(s: seq<real>)
    requires forall a, b :: 0 <= a < b < |s| ==> s[a] >= s[b]
    requires forall k :: 0 <= k < |s| ==> s[k] >= 0.0
    ensures forall k :: 0 <= k < NonZeroCount(s) ==> s[k] > 0.0
    ensures forall k :: NonZeroCount(s) <= k < |s| ==> s[k] == 0.0
    decreases |s|
  {
    if |s| > 0 {
      var n := |s| - 1;
      if s[n] == 0.0 {
        TrimKeepsPositive(s[..n]);
      } else {
        NoZeroBeforePositive(s);
      }
    }
  }

  /**
    Negative scores survive and zeros are kept: the scores 0, 0, -0.1, -0.2, -0.3
    have two zeros, so the entry stays, cut to its first three scores.
   */
  lemma ExcludeKeepsZerosAndNegatives()
    ensures var m := MappedCluster(1, ["a", "b", "c", "d", "e"], [0.0, 0.0, -0.1, -0.2, -0.3]);
            ExcludeUnimportant([m]) == [MappedCluster(1, ["a", "b", "c"], [0.0, 0.0, -0.1])]
  {
    var s := [0.0, 0.0, -0.1, -0.2, -0.3];
    assert s[..4] == [0.0, 0.0, -0.1, -0.2];
    assert s[..4][..3] == [0.0, 0.0, -0.1];
    assert s[..4][..3][..2] == [0.0, 0.0];
    assert s[..4][..3][..2][..1] == [0.0];
    assert s[..4][..3][..2][..1][..0] == [];
    assert ZeroCount([0.0]) == 1 && NonZeroCount([0.0]) == 0;
    assert ZeroCount([0.0, 0.0]) == 2 && NonZeroCount([0.0, 0.0]) == 0;
    assert ZeroCount([0.0, 0.0, -0.1]) == 2 && NonZeroCount([0.0, 0.0, -0.1]) == 1;
    assert ZeroCount([0.0, 0.0, -0.1, -0.2]) == 2;
    assert ZeroCount(s) == 2;
    assert NonZeroCount(s) == 3;
    var m := MappedCluster(1, ["a", "b", "c", "d", "e"], s);
    assert !Unimportant(m);
    assert ["a", "b", "c", "d", "e"][..3] == ["a", "b", "c"];
    assert s[..3] == [0.0, 0.0, -0.1];
    assert Trim(m) == MappedCluster(1, ["a", "b", "c"], [0.0, 0.0, -0.1]);
    assert [m][1..] == [];
  }

  /** A cluster with fewer than five features is never dropped, even when all its scores are zero. */
  lemma FewFeaturesNeverUnimportant(m: MappedCluster)
    requires |m.scores| < 5
    ensures !Unimportant(m)
  {
  }

  // ---------------------------------------------------------------- identify_anomaly_cluster

  function ClusterSet(ms: seq<MappedCluster>): set<int>
  {
    set m | m in ms :: m.cluster
  }

  /** `all_cluster - cluster_anomaly_removed`. */
  function AnomalyClusters(ms: seq<MappedCluster>): set<int>
  {
    ClusterSet(ms) - ClusterSet(ExcludeUnimportant(ms))
  }

  datatype TaggedRow = TaggedRow(row: ClusterRow, isAnomaly: bool)

  datatype AnomalyReport = AnomalyReport(rows: seq<TaggedRow>, isAnomalyExist: bool)

  /**
    `identify_anomaly_cluster`, with the per-row tag as intended: a row is tagged
    exactly when its cluster is an anomaly cluster, and the flag is set exactly when
    some entry was dropped, in which case no row is tagged when it is not.
   */
  function IdentifyAnomalyCluster(rows: seq<ClusterRow>, ms: seq<MappedCluster>): (r: AnomalyReport)
    ensures r.isAnomalyExist <==> exists i :: 0 <= i < |ms| && Unimportant(ms[i])
    ensures |r.rows| == |rows|
    ensures forall i :: 0 <= i < |rows| ==> r.rows[i].row == rows[i]
    ensures forall i :: 0 <= i < |rows| ==> (r.rows[i].isAnomaly <==> rows[i].cluster in AnomalyClusters(ms))
    ensures !r.isAnomalyExist ==> forall i :: 0 <= i < |rows| ==> !r.rows[i].isAnomaly
  {
    var post := ExcludeUnimportant(ms);
    if |post| == |ms| then
      NoneDroppedNoAnomaly(ms);
      AnomalyReport(seq(|rows|, i requires 0 <= i < |rows| => TaggedRow(rows[i], false)), false)
    else
      var anomalies := AnomalyClusters(ms);
      AnomalyReport(seq(|rows|, i requires 0 <= i < |rows| => TaggedRow(rows[i], rows[i].cluster in anomalies)), true)
  }

  /** When no entry is dropped, every cluster is kept, so there is no anomaly cluster. */
  lemma NoneDroppedNoAnomaly(ms: seq<MappedCluster>)
    requires forall i :: 0 <= i < |ms| ==> !Unimportant(ms[i])
    ensures AnomalyClusters(ms) == {}
  {
    forall c | c in ClusterSet(ms) ensures c in ClusterSet(ExcludeUnimportant(ms)) {
      var m :| m in ms && m.cluster == c;
      assert Trim(m) in ExcludeUnimportant(ms);
    }
  }

  /**
    With distinct cluster ids, the anomaly clusters are exactly the clusters of the
    dropped entries.
   */
  lemma AnomalyClustersAreDropped(ms: seq<MappedCluster>, c: int)
    requires DistinctClusters(ms)
    ensures c in AnomalyClusters(ms) <==> exists i :: 0 <= i < |ms| && ms[i].cluster == c && Unimportant(ms[i])
  {
    if c in AnomalyClusters(ms) {
      AnomalyIsDropped(ms, c);
    }
    if exists i :: 0 <= i < |ms| && ms[i].cluster == c && Unimportant(ms[i]) {
      var i :| 0 <= i < |ms| && ms[i].cluster == c && Unimportant(ms[i]);
      DroppedIsAnomaly(ms, i);
    }
  }

  lemma AnomalyIsDropped(ms: seq<MappedCluster>, c: int)
    requires c in AnomalyClusters(ms)
    ensures exists i :: 0 <= i < |ms| && ms[i].cluster == c && Unimportant(ms[i])
  {
    var m :| m in ms && m.cluster == c;
    var i :| 0 <= i < |ms| && ms[i] == m;
  }

  lemma DroppedIsAnomaly(ms: seq<MappedCluster>, i: nat)
    requires DistinctClusters(ms)
    requires i < |ms| && Unimportant(ms[i])
    ensures ms[i].cluster in AnomalyClusters(ms)
  {
    var c := ms[i].cluster;
    var post := ExcludeUnimportant(ms);
    assert ms[i] in ms;
    forall x | x in post ensures x.cluster != c {
      var m :| m in ms && !Unimportant(m) && x == Trim(m);
      var j :| 0 <= j < |ms| && ms[j] == m;
      assert j != i;
    }
  }
}
