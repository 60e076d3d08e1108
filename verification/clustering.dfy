/**
 * The regrouping step of `DBSCAN_fit`. The density-based clustering itself is
 * an external call; its results, one label per point (-1 for noise) and the
 * core-sample mask, are inputs here. For every distinct label, in the order
 * the label set is iterated, the output holds one cluster: the points of
 * that label that are core samples, then those that are not, each part in
 * input order.
 */
module Clustering {
  import Text

  /** The label the clustering gives to noise points. */
  const Noise: int := -1

  /** Point `i` has label `labels[i]` and is a core sample iff `core[i]`. */
  predicate Aligned<P>(points: seq<P>, labels: seq<int>, core: seq<bool>) {
    |labels| == |points| && |core| == |points|
  }

  /** No value occurs twice. */
  predicate NoDuplicates<T(==)>(s: seq<T>) {
    s == [] || (s[0] !in s[1..] && NoDuplicates(s[1..]))
  }

  /** No duplicates means: different positions hold different values. */
  lemma {:induction false} NoDuplicatesIndices<T>(s: seq<T>)
    ensures NoDuplicates(s) <==> forall i, j :: 0 <= i < j < |s| ==> s[i] != s[j]
  {
    if s != [] {
      NoDuplicatesIndices(s[1..]);
      if NoDuplicates(s) {
        forall i, j | 0 <= i < j < |s| ensures s[i] != s[j] {
          if i == 0 {
            assert s[j] == s[1..][j - 1];
          } else {
            assert s[i] == s[1..][i - 1] && s[j] == s[1..][j - 1];
          }
        }
      }
      if forall i, j :: 0 <= i < j < |s| ==> s[i] != s[j] {
        forall i, j | 0 <= i < j < |s[1..]| ensures s[1..][i] != s[1..][j] {
          assert s[1..][i] == s[i + 1] && s[1..][j] == s[j + 1];
        }
        assert s[0] !in s[1..] by {
          forall k | 0 <= k < |s[1..]| ensures s[1..][k] != s[0] {
            assert s[1..][k] == s[k + 1];
          }
        }
      }
    }
  }

  /** Every label among the first `n` points is listed in `order`. */
  predicate ListedUpTo(labels: seq<int>, order: seq<int>, n: nat)
    requires n <= |labels|
  {
    n == 0 || (labels[n - 1] in order && ListedUpTo(labels, order, n - 1))
  }

  /** An enumeration of the labels lists the label of every point. */
  lemma {:induction false} EnumeratedListed(labels: seq<int>, order: seq<int>, n: nat)
    requires Enumerates(order, labels) && n <= |labels|
    ensures ListedUpTo(labels, order, n)
  {
    if n > 0 {
      EnumeratedListed(labels, order, n - 1);
      var l := labels[n - 1];
      assert l in labels;
      assert l in order;
    }
  }

  /** `order` lists every label that occurs, each once: an iteration order of `set(labels)`. */
  predicate Enumerates(order: seq<int>, labels: seq<int>) {
    && NoDuplicates(order)
    && (forall l :: l in order ==> l in labels)
    && (forall l :: l in labels ==> l in order)
  }

  /**
   * The points among the first `n` that carry label `k` and whose core flag
   * equals `wantCore`, in input order.
   */
  function Select<P>(points: seq<P>, labels: seq<int>, core: seq<bool>, k: int, wantCore: bool, n: nat): (r: seq<P>)
    requires Aligned(points, labels, core) && n <= |points|
    ensures |r| <= n
  {
    if n == 0 then []
    else
      Select(points, labels, core, k, wantCore, n - 1)
      + (if labels[n - 1] == k && core[n - 1] == wantCore then [points[n - 1]] else [])
  }

  /** The cluster of label `k` over the first `n` points: its core samples, then its other points. */
  function ClusterUpTo<P>(points: seq<P>, labels: seq<int>, core: seq<bool>, k: int, n: nat): seq<P>
    requires Aligned(points, labels, core) && n <= |points|
  {
    Select(points, labels, core, k, true, n) + Select(points, labels, core, k, false, n)
  }

  /** The cluster of label `k`. */
  function Cluster<P>(points: seq<P>, labels: seq<int>, core: seq<bool>, k: int): seq<P>
    requires Aligned(points, labels, core)
  {
    ClusterUpTo(points, labels, core, k, |points|)
  }

  /** One cluster per label of `order`, in that order. */
  function ClustersFor<P>(points: seq<P>, labels: seq<int>, core: seq<bool>, order: seq<int>): (r: seq<seq<P>>)
    requires Aligned(points, labels, core)
    ensures |r| == |order|
    ensures forall j :: 0 <= j < |r| ==> r[j] == Cluster(points, labels, core, order[j])
  {
    if order == [] then []
    else [Cluster(points, labels, core, order[0])] + ClustersFor(points, labels, core, order[1..])
  }

  /**
   * `list_of_clusters` as `DBSCAN_fit` returns it; `order` is the iteration
   * order of `set(labels)`.
   */
  function ListOfClusters<P>(points: seq<P>, labels: seq<int>, core: seq<bool>, order: seq<int>): (r: seq<seq<P>>)
    requires Aligned(points, labels, core) && Enumerates(order, labels)
    ensures |r| == |order|
    ensures forall j :: 0 <= j < |r| ==> r[j] == Cluster(points, labels, core, order[j])
  {
    ClustersFor(points, labels, core, order)
  }

  /** The sum of the cluster sizes. */
  function TotalSize<P>(clusters: seq<seq<P>>): nat {
    if clusters == [] then 0 else |clusters[0]| + TotalSize(clusters[1..])
  }

  /** `n_clusters_`: the number of distinct labels, less one when noise occurs. */
  function ClusterCount(labels: seq<int>): (r: int)
    ensures r == |set l | l in labels && l != Noise|
  {
    var all := set l | l in labels;
    var proper := set l | l in labels && l != Noise;
    if Noise in labels then
      assert all == proper + {Noise};
      |all| - 1
    else
      assert all == proper;
      |all|
  }

  /** `n_noise_`: how many points are labelled noise. */
  function NoiseCount(labels: seq<int>): (r: nat)
    ensures r > 0 <==> Noise in labels
    ensures r <= |labels|
  {
    multiset(labels)[Noise]
  }

  // ---------------------------------------------------------------------
  // Index-level view: clustering the point numbers 0 .. N-1 themselves.

  /** The point numbers 0 .. n-1. */
  function Range(n: nat): (r: seq<int>)
    ensures |r| == n && forall i :: 0 <= i < n ==> r[i] == i
  {
    seq(n, i => i)
  }

  /** Strictly increasing, so in input order and without repeats. */
  predicate Increasing(s: seq<int>) {
    forall i, j :: 0 <= i < j < |s| ==> s[i] < s[j]
  }

  /** Selecting point numbers yields, in increasing order, exactly the numbers below `n` that match. */
  lemma {:induction false} SelectIndices(labels: seq<int>, core: seq<bool>, k: int, wantCore: bool, n: nat)
    requires |labels| == |core| && n <= |labels|
    ensures var r := Select(Range(|labels|), labels, core, k, wantCore, n);
      && Increasing(r)
      && (forall i :: 0 <= i < |r| ==> 0 <= r[i] < n)
      && (forall i :: i in r <==> 0 <= i < n && labels[i] == k && core[i] == wantCore)
  {
    var pts := Range(|labels|);
    if n > 0 {
      SelectIndices(labels, core, k, wantCore, n - 1);
    }
  }

  /**
   * Selecting points is selecting point numbers and looking the points up:
   * what holds of the point numbers holds of the coordinates.
   */
  lemma {:induction false} SelectBridge<P>(points: seq<P>, labels: seq<int>, core: seq<bool>, k: int, wantCore: bool, n: nat)
    requires Aligned(points, labels, core) && n <= |points|
    ensures var ix := Select(Range(|points|), labels, core, k, wantCore, n);
      var r := Select(points, labels, core, k, wantCore, n);
      && |r| == |ix|
      && forall j :: 0 <= j < |ix| ==> 0 <= ix[j] < |points| && r[j] == points[ix[j]]
  {
    SelectIndices(labels, core, k, wantCore, n);
    if n > 0 {
      SelectBridge(points, labels, core, k, wantCore, n - 1);
    }
  }

  /**
   * The cluster of label `k`, as point numbers: first the core samples of
   * that label, then its other points, each part in input order; a point is
   * in it iff it carries label `k`.
   */
  lemma ClusterIndices(labels: seq<int>, core: seq<bool>, k: int)
    requires |labels| == |core|
    ensures var pts := Range(|labels|);
      var cores := Select(pts, labels, core, k, true, |labels|);
      var others := Select(pts, labels, core, k, false, |labels|);
      && Cluster(pts, labels, core, k) == cores + others
      && Increasing(cores) && Increasing(others)
      && (forall i :: i in cores <==> 0 <= i < |labels| && labels[i] == k && core[i])
      && (forall i :: i in others <==> 0 <= i < |labels| && labels[i] == k && !core[i])
  {
    SelectIndices(labels, core, k, true, |labels|);
    SelectIndices(labels, core, k, false, |labels|);
  }

  /**
   * Every point number lies in the cluster of its own label and in no other,
   * and no cluster repeats a point.
   */
  lemma PointInOwnCluster(labels: seq<int>, core: seq<bool>, order: seq<int>)
    requires |labels| == |core| && Enumerates(order, labels)
    ensures var cs := ListOfClusters(Range(|labels|), labels, core, order);
      && (forall i, j :: 0 <= i < |labels| && 0 <= j < |cs| ==> (i in cs[j] <==> labels[i] == order[j]))
      && (forall j :: 0 <= j < |cs| ==> NoDuplicates(cs[j]))
  {
    var pts := Range(|labels|);
    var cs := ListOfClusters(pts, labels, core, order);
    forall j | 0 <= j < |cs|
      ensures forall i :: 0 <= i < |labels| ==> (i in cs[j] <==> labels[i] == order[j])
      ensures NoDuplicates(cs[j])
    {
      ClusterIndices(labels, core, order[j]);
      var cores := Select(pts, labels, core, order[j], true, |labels|);
      var others := Select(pts, labels, core, order[j], false, |labels|);
      assert cs[j] == cores + others;
      NoDuplicatesIndices(cs[j]);
      forall a, b | 0 <= a < b < |cs[j]| ensures cs[j][a] != cs[j][b] {
        if b < |cores| {
          assert cs[j][a] == cores[a] && cs[j][b] == cores[b];
        } else if a >= |cores| {
          assert cs[j][a] == others[a - |cores|] && cs[j][b] == others[b - |cores|];
        } else {
          assert cs[j][a] == cores[a] && cs[j][b] == others[b - |cores|];
          assert cores[a] in cores && others[b - |cores|] in others;
          assert core[cores[a]] && !core[others[b - |cores|]];
        }
      }
    }
  }

  // ---------------------------------------------------------------------
  // Sizes and the partition of the points.

  /** The number of points with label `k` among the first `n`. */
  function CountLabel(labels: seq<int>, k: int, n: nat): nat
    requires n <= |labels|
  {
    multiset(labels[..n])[k]
  }

  /** A cluster holds exactly the points of its label. */
  lemma {:induction false} ClusterUpToSize<P>(points: seq<P>, labels: seq<int>, core: seq<bool>, k: int, n: nat)
    requires Aligned(points, labels, core) && n <= |points|
    ensures |ClusterUpTo(points, labels, core, k, n)| == CountLabel(labels, k, n)
  {
    if n > 0 {
      ClusterUpToSize(points, labels, core, k, n - 1);
      assert labels[..n] == labels[..n - 1] + [labels[n - 1]];
    }
  }

  /** The noise cluster has `n_noise_` points. */
  lemma NoiseClusterSize<P>(points: seq<P>, labels: seq<int>, core: seq<bool>)
    requires Aligned(points, labels, core)
    ensures |Cluster(points, labels, core, Noise)| == NoiseCount(labels)
  {
    ClusterUpToSize(points, labels, core, Noise, |points|);
    assert labels[..|labels|] == labels;
  }

  /** The union of the clusters of `order`, built over the first `n` points. */
  function Gathered<P>(points: seq<P>, labels: seq<int>, core: seq<bool>, order: seq<int>, n: nat): multiset<P>
    requires Aligned(points, labels, core) && n <= |points|
  {
    if order == [] then multiset{}
    else multiset(ClusterUpTo(points, labels, core, order[0], n)) + Gathered(points, labels, core, order[1..], n)
  }

  /** Point `n - 1` joins the cluster of label `k` iff it carries that label. */
  lemma ClusterUpToStep<P>(points: seq<P>, labels: seq<int>, core: seq<bool>, k: int, n: nat)
    requires Aligned(points, labels, core) && 0 < n <= |points|
    ensures multiset(ClusterUpTo(points, labels, core, k, n))
         == multiset(ClusterUpTo(points, labels, core, k, n - 1))
            + (if labels[n - 1] == k then multiset{points[n - 1]} else multiset{})
  {
  }

  /** Point `n - 1` joins the cluster of its own label and no other. */
  lemma {:induction false} GatheredStep<P>(points: seq<P>, labels: seq<int>, core: seq<bool>, order: seq<int>, n: nat)
    requires Aligned(points, labels, core) && 0 < n <= |points| && NoDuplicates(order)
    ensures Gathered(points, labels, core, order, n)
         == Gathered(points, labels, core, order, n - 1)
            + (if labels[n - 1] in order then multiset{points[n - 1]} else multiset{})
  {
    if order != [] {
      GatheredStep(points, labels, core, order[1..], n);
      ClusterUpToStep(points, labels, core, order[0], n);
      GatheredStepCons(points, labels, core, order, n);
    }
  }

  /** The inductive step of `GatheredStep`: the head label's cluster and the rest's union each take their share. */
  lemma GatheredStepCons<P>(points: seq<P>, labels: seq<int>, core: seq<bool>, order: seq<int>, n: nat)
    requires Aligned(points, labels, core) && 0 < n <= |points| && order != [] && order[0] !in order[1..]
    requires multiset(ClusterUpTo(points, labels, core, order[0], n))
          == multiset(ClusterUpTo(points, labels, core, order[0], n - 1))
             + (if labels[n - 1] == order[0] then multiset{points[n - 1]} else multiset{})
    requires Gathered(points, labels, core, order[1..], n)
          == Gathered(points, labels, core, order[1..], n - 1)
             + (if labels[n - 1] in order[1..] then multiset{points[n - 1]} else multiset{})
    ensures Gathered(points, labels, core, order, n)
         == Gathered(points, labels, core, order, n - 1)
            + (if labels[n - 1] in order then multiset{points[n - 1]} else multiset{})
  {
    var k, rest, l := order[0], order[1..], labels[n - 1];
    var one := multiset{points[n - 1]};
    assert l in order <==> l == k || l in rest;
    SharesAdd(multiset(ClusterUpTo(points, labels, core, k, n - 1)), Gathered(points, labels, core, rest, n - 1),
              if l == k then one else multiset{}, if l in rest then one else multiset{});
  }

  /** Multiset bookkeeping for `GatheredStepCons`. */
  lemma SharesAdd<P>(here: multiset<P>, there: multiset<P>, a: multiset<P>, b: multiset<P>)
    ensures (here + a) + (there + b) == (here + there) + (a + b)
  {
  }

  /** Over the first `n` points, the clusters together hold each point exactly once. */
  lemma {:induction false} GatheredAll<P>(points: seq<P>, labels: seq<int>, core: seq<bool>, order: seq<int>, n: nat)
    requires Aligned(points, labels, core) && n <= |points| && NoDuplicates(order)
    requires ListedUpTo(labels, order, n)
    ensures Gathered(points, labels, core, order, n) == multiset(points[..n])
  {
    if n == 0 {
      GatheredEmpty(points, labels, core, order);
    } else {
      GatheredAll(points, labels, core, order, n - 1);
      GatheredOneMore(points, labels, core, order, n);
    }
  }

  /** Adding point `n - 1`, whose label is listed, adds it to the union once. */
  lemma GatheredOneMore<P>(points: seq<P>, labels: seq<int>, core: seq<bool>, order: seq<int>, n: nat)
    requires Aligned(points, labels, core) && 0 < n <= |points| && NoDuplicates(order)
    requires labels[n - 1] in order
    requires Gathered(points, labels, core, order, n - 1) == multiset(points[..n - 1])
    ensures Gathered(points, labels, core, order, n) == multiset(points[..n])
  {
    GatheredStep(points, labels, core, order, n);
    assert points[..n] == points[..n - 1] + [points[n - 1]];
  }

  /** Before any point, every cluster is empty. */
  lemma {:induction false} GatheredEmpty<P>(points: seq<P>, labels: seq<int>, core: seq<bool>, order: seq<int>)
    requires Aligned(points, labels, core)
    ensures Gathered(points, labels, core, order, 0) == multiset(points[..0])
  {
    assert points[..0] == [];
    if order != [] {
      GatheredEmpty(points, labels, core, order[1..]);
    }
  }

  /** Flattening the cluster list gathers the clusters. */
  lemma {:induction false} FlattenGathered<P>(points: seq<P>, labels: seq<int>, core: seq<bool>, order: seq<int>)
    requires Aligned(points, labels, core)
    ensures multiset(Text.Concat(ClustersFor(points, labels, core, order)))
         == Gathered(points, labels, core, order, |points|)
    ensures |Text.Concat(ClustersFor(points, labels, core, order))| == TotalSize(ClustersFor(points, labels, core, order))
  {
    if order != [] {
      FlattenGathered(points, labels, core, order[1..]);
      var cs := ClustersFor(points, labels, core, order);
      assert cs[1..] == ClustersFor(points, labels, core, order[1..]);
    }
  }

  /**
   * The clusters partition the points: together they hold every input point
   * exactly as often as the input does, noise included, so their sizes add
   * up to the number of points.
   */
  lemma ClustersPartitionPoints<P>(points: seq<P>, labels: seq<int>, core: seq<bool>, order: seq<int>)
    requires Aligned(points, labels, core) && Enumerates(order, labels)
    ensures multiset(Text.Concat(ListOfClusters(points, labels, core, order))) == multiset(points)
    ensures TotalSize(ListOfClusters(points, labels, core, order)) == |points|
  {
    FlattenGathered(points, labels, core, order);
    EnumeratedListed(labels, order, |labels|);
    GatheredAll(points, labels, core, order, |points|);
    assert points[..|points|] == points;
    var flat := Text.Concat(ListOfClusters(points, labels, core, order));
    assert |multiset(flat)| == |flat|;
  }

  /** Distinct values of a duplicate-free sequence: as many as its length. */
  lemma {:induction false} DistinctCount(s: seq<int>)
    requires NoDuplicates(s)
    ensures |set l | l in s| == |s|
  {
    if s != [] {
      DistinctCount(s[1..]);
      assert (set l | l in s) == (set l | l in s[1..]) + {s[0]};
      assert s[0] !in s[1..];
    }
  }

  /** One cluster per `n_clusters_`, plus one more for noise when noise occurs. */
  lemma ClusterListLength<P>(points: seq<P>, labels: seq<int>, core: seq<bool>, order: seq<int>)
    requires Aligned(points, labels, core) && Enumerates(order, labels)
    ensures |ListOfClusters(points, labels, core, order)|
         == ClusterCount(labels) + (if Noise in labels then 1 else 0)
  {
    DistinctCount(order);
    forall l ensures l in order <==> l in labels {
      if l in labels { assert l in order; }
    }
    assert (set l | l in order) == (set l | l in labels);
  }

  /** Clustering the point numbers: every point number occurs exactly once in the cluster list. */
  lemma EachPointOnce(labels: seq<int>, core: seq<bool>, order: seq<int>, i: int)
    requires |labels| == |core| && Enumerates(order, labels) && 0 <= i < |labels|
    ensures multiset(Text.Concat(ListOfClusters(Range(|labels|), labels, core, order)))[i] == 1
  {
    var pts := Range(|labels|);
    ClustersPartitionPoints(pts, labels, core, order);
    RangeOnce(|labels|, i);
  }

  /** Each number below `n` occurs once in `Range(n)`. */
  lemma {:induction false} RangeOnce(n: nat, i: int)
    requires 0 <= i < n
    ensures multiset(Range(n))[i] == 1
  {
    if i < n - 1 {
      RangeOnce(n - 1, i);
    }
    assert Range(n) == Range(n - 1) + [n - 1];
    if i == n - 1 {
      assert i !in Range(n - 1);
    }
  }
}
