/**
 * The colour and legend logic of `ClusteringVisualization`: the distinct
 * cluster labels in order of first appearance, a ten-colour ordinal scale
 * keyed by each label's text, one fill per data point and per centroid, and
 * one legend row per distinct label.
 */
module Clustering {
  import opened Wrappers
  import opened Text

  /** The first position of `x` in `xs`. */
  function IndexOf<T(==)>(xs: seq<T>, x: T): (i: nat)
    requires x in xs
    ensures i < |xs| && xs[i] == x && x !in xs[..i]
  {
    if xs[0] == x then 0
    else
      var i := 1 + IndexOf(xs[1..], x);
      assert xs[..i] == [xs[0]] + xs[1..][..i - 1];
      i
  }

  /** Extending a sequence does not move the first occurrence of something already in it. */
  lemma IndexOfPrefix<T>(p: seq<T>, q: seq<T>, x: T)
    requires |p| <= |q| && q[..|p|] == p && x in p
    ensures x in q && IndexOf(q, x) == IndexOf(p, x)
  {
    var i := IndexOf(p, x);
    assert q[i] == p[i];
    var j := IndexOf(q, x);
    assert x !in q[..j] && x !in p[..i];
  }

  predicate Distinct<T(==)>(xs: seq<T>)
  {
    forall i, j :: 0 <= i < j < |xs| ==> xs[i] != xs[j]
  }

  /** `Array.from(new Set(labels))`: a set iterates in insertion order. */
  function UniqueLabels(labels: seq<int>): (u: seq<int>)
    ensures Distinct(u)
    ensures forall x :: x in u <==> x in labels
  {
    if |labels| == 0 then []
    else
      var prefix := labels[..|labels| - 1];
      var last := labels[|labels| - 1];
      var u := UniqueLabels(prefix);
      assert labels == prefix + [last];
      if last in u then u else u + [last]
  }

  /** The labels keep the order of their first appearance. */
  lemma {:induction false} UniqueLabelsOrder(labels: seq<int>, i: nat, j: nat)
    requires i < j < |UniqueLabels(labels)|
    ensures IndexOf(labels, UniqueLabels(labels)[i]) < IndexOf(labels, UniqueLabels(labels)[j])
  {
    var prefix := labels[..|labels| - 1];
    var last := labels[|labels| - 1];
    var u := UniqueLabels(labels);
    var v := UniqueLabels(prefix);
    assert labels == prefix + [last];
    assert labels[..|prefix|] == prefix;
    if j < |v| {
      assert u[i] == v[i] && u[j] == v[j];
      UniqueLabelsOrder(prefix, i, j);
      IndexOfPrefix(prefix, labels, v[i]);
      IndexOfPrefix(prefix, labels, v[j]);
    } else {
      assert u == v + [last] && last !in prefix;
      assert u[i] == v[i];
      IndexOfPrefix(prefix, labels, v[i]);
    }
  }

  /** A label's text, `label.toString()`. */
  function Key(lab: int): string
  {
    IntToString(lab)
  }

  /** Distinct labels have distinct keys. */
  lemma KeysDistinct(u: seq<int>)
    requires Distinct(u)
    ensures Distinct(seq(|u|, k requires 0 <= k < |u| => Key(u[k])))
  {
    forall i, j | 0 <= i < j < |u| ensures Key(u[i]) != Key(u[j]) {
      if Key(u[i]) == Key(u[j]) {
        IntToStringInjective(u[i], u[j]);
      }
    }
  }

  /** The text beside a legend swatch. */
  function LegendText(lab: int): (text: string)
    ensures lab == -1 ==> text == "Noise"
    ensures lab != -1 ==> text == "Cluster " + IntToString(lab)
  {
    if lab == -1 then "Noise" else "Cluster " + IntToString(lab)
  }

  /** No two labels share a legend text. */
  lemma LegendTextInjective(a: int, b: int)
    requires LegendText(a) == LegendText(b)
    ensures a == b
  {
    if a != -1 && b != -1 {
      assert IntToString(a) == LegendText(a)[8..];
      assert IntToString(b) == LegendText(b)[8..];
      IntToStringInjective(a, b);
    }
  }

  /**
   * d3's `scaleOrdinal` over the ten colours of `schemeCategory10`, as a
   * colour slot 0..9: a key already in the domain gets the slot of its place
   * there (cycling through the ten colours), a new key is first appended to
   * the domain.
   */
  function Scale(domain: seq<string>, key: string): (r: (nat, seq<string>))
    ensures r.0 < 10
    ensures r.1 == if key in domain then domain else domain + [key]
    ensures key in r.1 && r.0 == IndexOf(r.1, key) % 10
  {
    if key in domain then (IndexOf(domain, key) % 10, domain)
    else
      var grown := domain + [key];
      (|domain| % 10, grown)
  }

  /** One `colorScale(key)` call per key, in order, threading the domain. */
  function ScaleAll(domain: seq<string>, keys: seq<string>): (r: (seq<nat>, seq<string>))
    ensures |r.0| == |keys|
  {
    if |keys| == 0 then ([], domain)
    else
      var before := ScaleAll(domain, keys[..|keys| - 1]);
      var step := Scale(before.1, keys[|keys| - 1]);
      (before.0 + [step.0], step.1)
  }

  /** The domain only grows at its end. */
  lemma {:induction false} ScaleAllGrows(domain: seq<string>, keys: seq<string>)
    ensures |ScaleAll(domain, keys).1| >= |domain| && ScaleAll(domain, keys).1[..|domain|] == domain
  {
    if |keys| > 0 {
      ScaleAllGrows(domain, keys[..|keys| - 1]);
      var before := ScaleAll(domain, keys[..|keys| - 1]);
      var step := Scale(before.1, keys[|keys| - 1]);
      assert step.1[..|before.1|] == before.1;
      assert step.1[..|domain|] == before.1[..|domain|];
    }
  }

  /** Every key ends up in the domain, and its fill is the slot it holds there at the end: one key, one colour. */
  lemma {:induction false} ScaleAllFill(domain: seq<string>, keys: seq<string>, i: nat)
    requires i < |keys|
    ensures keys[i] in ScaleAll(domain, keys).1
    ensures ScaleAll(domain, keys).0[i] == IndexOf(ScaleAll(domain, keys).1, keys[i]) % 10
  {
    var prefix := keys[..|keys| - 1];
    var before := ScaleAll(domain, prefix);
    var step := Scale(before.1, keys[|keys| - 1]);
    assert ScaleAll(domain, keys) == (before.0 + [step.0], step.1);
    if i < |prefix| {
      ScaleAllFill(domain, prefix, i);
      assert keys[i] == prefix[i];
      assert (before.0 + [step.0])[i] == before.0[i];
      assert step.1[..|before.1|] == before.1;
      IndexOfPrefix(before.1, step.1, keys[i]);
    } else {
      assert keys[i] == keys[|keys| - 1];
      assert (before.0 + [step.0])[i] == step.0;
    }
  }

  /** Keys that are all known leave the domain as it was. */
  lemma {:induction false} ScaleAllKnown(domain: seq<string>, keys: seq<string>)
    requires forall i :: 0 <= i < |keys| ==> keys[i] in domain
    ensures ScaleAll(domain, keys).1 == domain
  {
    if |keys| > 0 {
      var prefix := keys[..|keys| - 1];
      assert forall i :: 0 <= i < |prefix| ==> prefix[i] in domain by {
        forall i | 0 <= i < |prefix| ensures prefix[i] in domain {
          assert prefix[i] == keys[i];
        }
      }
      ScaleAllKnown(domain, prefix);
      assert keys[|keys| - 1] in domain;
    }
  }

  datatype LegendRow = LegendRow(offset: int, fill: nat, text: string)

  datatype Scene = Scene(pointFills: seq<nat>, centroidFills: seq<nat>, legend: seq<LegendRow>)

  /**
   * What the effect ends with: nothing without a mounted `<svg>`, a thrown
   * `TypeError` when a data point has no label (`labels[i]` is undefined),
   * otherwise the drawn scene.
   */
  datatype Outcome = NotMounted | MissingLabel | Drawn(scene: Scene)

  /** The domain the scale starts from: `uniqueLabels.map(String)`. */
  function LabelKeys(u: seq<int>): (keys: seq<string>)
    ensures |keys| == |u|
  {
    seq(|u|, k requires 0 <= k < |u| => Key(u[k]))
  }

  /** Point `i` asks for the colour of `labels[i].toString()`. */
  function PointKeys(data: seq<seq<real>>, labels: seq<int>): (keys: seq<string>)
    requires |data| <= |labels|
    ensures |keys| == |data|
  {
    seq(|data|, i requires 0 <= i < |data| => Key(labels[i]))
  }

  /** Centroids are drawn only for k-means results that carry them. */
  predicate ShowsCentroids(centroids: Option<seq<seq<real>>>, algorithm: string)
  {
    algorithm == "kmeans" && centroids.Some?
  }

  /** Centroid `i` asks for the colour of `i.toString()`; no centroids are drawn otherwise. */
  function CentroidKeys(centroids: Option<seq<seq<real>>>, algorithm: string): (keys: seq<string>)
    ensures |keys| == if ShowsCentroids(centroids, algorithm) then |centroids.value| else 0
  {
    if ShowsCentroids(centroids, algorithm) then seq(|centroids.value|, i requires 0 <= i < |centroids.value| => Key(i))
    else []
  }

  /** The fills of the points, and the scale's domain after them. */
  function PointStage(data: seq<seq<real>>, labels: seq<int>): (seq<nat>, seq<string>)
    requires |data| <= |labels|
  {
    ScaleAll(LabelKeys(UniqueLabels(labels)), PointKeys(data, labels))
  }

  /** The fills of the centroids, and the domain after them. */
  function CentroidStage(data: seq<seq<real>>, labels: seq<int>, centroids: Option<seq<seq<real>>>, algorithm: string): (seq<nat>, seq<string>)
    requires |data| <= |labels|
  {
    ScaleAll(PointStage(data, labels).1, CentroidKeys(centroids, algorithm))
  }

  /** The fills of the legend swatches. */
  function LegendStage(data: seq<seq<real>>, labels: seq<int>, centroids: Option<seq<seq<real>>>, algorithm: string): (seq<nat>, seq<string>)
    requires |data| <= |labels|
  {
    ScaleAll(CentroidStage(data, labels, centroids, algorithm).1, LabelKeys(UniqueLabels(labels)))
  }

  /** `uniqueLabels.forEach`: row `k` at `translate(0, k * 20)` with its swatch and text. */
  function Legend(u: seq<int>, fills: seq<nat>): (rows: seq<LegendRow>)
    requires |fills| == |u|
    ensures |rows| == |u|
  {
    seq(|u|, k requires 0 <= k < |u| => LegendRow(20 * k, fills[k], LegendText(u[k])))
  }

  /** The effect's colour and legend decisions, in the order d3 evaluates them. */
  function Render(mounted: bool, data: seq<seq<real>>, labels: seq<int>, centroids: Option<seq<seq<real>>>, algorithm: string): Outcome
  {
    if !mounted then NotMounted
    else if |labels| < |data| then MissingLabel
    else
      Drawn(Scene(
        PointStage(data, labels).0,
        CentroidStage(data, labels, centroids, algorithm).0,
        Legend(UniqueLabels(labels), LegendStage(data, labels, centroids, algorithm).0)))
  }

  /** Keys of distinct labels sit at their own places in every extension of the initial domain. */
  lemma KeyPlace(u: seq<int>, d: seq<string>, k: nat)
    requires Distinct(u) && k < |u|
    requires |d| >= |u| && d[..|u|] == LabelKeys(u)
    ensures Key(u[k]) in d && IndexOf(d, Key(u[k])) == k
  {
    var keys := LabelKeys(u);
    KeysDistinct(u);
    assert keys[k] == Key(u[k]);
    IndexOfPrefix(keys, d, Key(u[k]));
    var i := IndexOf(keys, Key(u[k]));
    assert keys[i] == keys[k];
  }

  /**
   * The points' keys are all labels, so they leave the domain alone; the
   * centroids may append keys; the legend's keys are known again.
   */
  lemma StageDomains(data: seq<seq<real>>, labels: seq<int>, centroids: Option<seq<seq<real>>>, algorithm: string)
    requires |data| <= |labels|
    ensures PointStage(data, labels).1 == LabelKeys(UniqueLabels(labels))
    ensures LegendStage(data, labels, centroids, algorithm).1 == CentroidStage(data, labels, centroids, algorithm).1
    ensures |CentroidStage(data, labels, centroids, algorithm).1| >= |UniqueLabels(labels)|
    ensures CentroidStage(data, labels, centroids, algorithm).1[..|UniqueLabels(labels)|] == LabelKeys(UniqueLabels(labels))
  {
    var u := UniqueLabels(labels);
    var domain := LabelKeys(u);
    var pointKeys := PointKeys(data, labels);
    forall m | 0 <= m < |pointKeys| ensures pointKeys[m] in domain {
      var l := IndexOf(u, labels[m]);
      assert domain[l] == pointKeys[m];
    }
    ScaleAllKnown(domain, pointKeys);
    var d := CentroidStage(data, labels, centroids, algorithm).1;
    ScaleAllGrows(domain, CentroidKeys(centroids, algorithm));
    forall m | 0 <= m < |domain| ensures domain[m] in d {
      assert d[..|domain|][m] == domain[m];
    }
    ScaleAllKnown(d, domain);
  }

  /** Without an `<svg>` nothing happens; with fewer labels than points the effect throws. */
  lemma RenderGuards(mounted: bool, data: seq<seq<real>>, labels: seq<int>, centroids: Option<seq<seq<real>>>, algorithm: string)
    ensures !mounted <==> Render(mounted, data, labels, centroids, algorithm) == NotMounted
    ensures Render(mounted, data, labels, centroids, algorithm) == MissingLabel <==> mounted && |labels| < |data|
  {
  }

  /** Legend row `k` is label `k` of the distinct labels, at offset `20 k`, in colour slot `k mod 10`. */
  lemma RenderLegend(data: seq<seq<real>>, labels: seq<int>, centroids: Option<seq<seq<real>>>, algorithm: string, k: nat)
    requires |data| <= |labels|
    requires k < |UniqueLabels(labels)|
    ensures Render(true, data, labels, centroids, algorithm).Drawn?
    ensures |Render(true, data, labels, centroids, algorithm).scene.legend| == |UniqueLabels(labels)|
    ensures Render(true, data, labels, centroids, algorithm).scene.legend[k] ==
      LegendRow(20 * k, k % 10, LegendText(UniqueLabels(labels)[k]))
  {
    var u := UniqueLabels(labels);
    var domain := LabelKeys(u);
    StageDomains(data, labels, centroids, algorithm);
    var d := CentroidStage(data, labels, centroids, algorithm).1;
    ScaleAllFill(d, domain, k);
    KeyPlace(u, d, k);
    assert domain[k] == Key(u[k]);
  }

  /** Point `i` is filled with the colour of the legend row of its own label. */
  lemma RenderPointColour(data: seq<seq<real>>, labels: seq<int>, centroids: Option<seq<seq<real>>>, algorithm: string, i: nat, k: nat)
    requires |data| <= |labels|
    requires i < |data| && k < |UniqueLabels(labels)| && UniqueLabels(labels)[k] == labels[i]
    ensures Render(true, data, labels, centroids, algorithm).Drawn?
    ensures |Render(true, data, labels, centroids, algorithm).scene.pointFills| == |data|
    ensures Render(true, data, labels, centroids, algorithm).scene.pointFills[i] == k % 10
  {
    PointFill(data, labels, i, k);
  }

  lemma PointFill(data: seq<seq<real>>, labels: seq<int>, i: nat, k: nat)
    requires |data| <= |labels|
    requires i < |data| && k < |UniqueLabels(labels)| && UniqueLabels(labels)[k] == labels[i]
    ensures PointStage(data, labels).0[i] == k % 10
  {
    var u := UniqueLabels(labels);
    var domain := LabelKeys(u);
    var keys := PointKeys(data, labels);
    StageDomains(data, labels, None, "");
    ScaleAllFill(domain, keys, i);
    assert keys[i] == Key(u[k]);
    assert domain[..|u|] == domain;
    KeyPlace(u, domain, k);
  }

  /**
   * Centroids appear exactly for k-means results that carry them, one fill
   * each, and centroid `c` takes the colour of cluster `c`'s legend row when
   * there is such a cluster.
   */
  lemma RenderCentroidColour(data: seq<seq<real>>, labels: seq<int>, centroids: Option<seq<seq<real>>>, algorithm: string, c: nat, k: nat)
    requires |data| <= |labels|
    requires ShowsCentroids(centroids, algorithm) && c < |centroids.value|
    requires k < |UniqueLabels(labels)| && UniqueLabels(labels)[k] == c
    ensures Render(true, data, labels, centroids, algorithm).Drawn?
    ensures Render(true, data, labels, centroids, algorithm).scene.centroidFills[c] == k % 10
  {
    var u := UniqueLabels(labels);
    StageDomains(data, labels, centroids, algorithm);
    var d := CentroidStage(data, labels, centroids, algorithm).1;
    ScaleAllFill(PointStage(data, labels).1, CentroidKeys(centroids, algorithm), c);
    KeyPlace(u, d, k);
  }

  /** Centroids are drawn, one fill each, exactly for k-means results that carry them. */
  lemma RenderCentroidCount(data: seq<seq<real>>, labels: seq<int>, centroids: Option<seq<seq<real>>>, algorithm: string)
    requires |data| <= |labels|
    ensures Render(true, data, labels, centroids, algorithm).Drawn?
    ensures |Render(true, data, labels, centroids, algorithm).scene.centroidFills| ==
      if ShowsCentroids(centroids, algorithm) then |centroids.value| else 0
  {
  }
}
