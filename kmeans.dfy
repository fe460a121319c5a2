/** KMeans: Lloyd's iteration. Each pass assigns every point to its first
    nearest centroid, sums each cluster's features, divides by the cluster's
    size and measures how far the centroids moved; passes repeat while the
    largest movement reaches the threshold and the pass budget lasts.

    Distances are compared squared: the source compares square roots, and
    the square root is monotone, so every comparison has the same outcome. */
module KMeans {
  import opened Common
  import opened Seqs
  import opened Points
  import opened PointSets

  // ---------------------------------------------------------------------
  // Vectors

  function Zeros(n: nat): (z: seq<real>)
    ensures |z| == n
  {
    seq(n, _ => 0.0)
  }

  function VAdd(a: seq<real>, b: seq<real>): (c: seq<real>)
    requires |a| == |b|
    ensures |c| == |a|
  {
    seq(|a|, i requires 0 <= i < |a| => a[i] + b[i])
  }

  function VDiv(a: seq<real>, d: real): (c: seq<real>)
    requires d != 0.0
    ensures |c| == |a|
  {
    seq(|a|, i requires 0 <= i < |a| => a[i] / d)
  }

  /** Feature i multiplied by factor i, for every feature of v. */
  function Scaled(v: seq<real>, factors: seq<real>): (w: seq<real>)
    requires |v| <= |factors|
    ensures |w| == |v|
  {
    seq(|v|, i requires 0 <= i < |v| => v[i] * factors[i])
  }

  /** Every vector has n entries. */
  predicate Uniform(vs: seq<seq<real>>, n: nat) {
    forall u :: 0 <= u < |vs| ==> |vs[u]| == n
  }

  /** The vector sum of a group, added in order onto the zero vector, as the
      accumulation into a fresh `new Point(nFeatures)` does it. */
  function Sum(g: seq<seq<real>>, n: nat): (s: seq<real>)
    requires Uniform(g, n)
    ensures |s| == n
    decreases |g|
  {
    if g == [] then Zeros(n) else VAdd(Sum(g[..|g| - 1], n), g[|g| - 1])
  }

  /** The ordinary sum of a list of numbers: the reference for one
      coordinate of Sum. */
  function Total(xs: seq<real>): real {
    if xs == [] then 0.0 else Total(xs[..|xs| - 1]) + xs[|xs| - 1]
  }

  /** Coordinate j of the vector sum is the sum of feature j over the group. */
  lemma {:induction false} SumIsColumnTotal(g: seq<seq<real>>, n: nat, j: nat)
    requires Uniform(g, n) && j < n
    ensures Sum(g, n)[j] == Total(Column(g, j))
    decreases |g|
  {
    if g != [] {
      var m := |g| - 1;
      SumIsColumnTotal(g[..m], n, j);
      assert Column(g, j)[..m] == Column(g[..m], j);
    }
  }

  // ---------------------------------------------------------------------
  // Centroids

  /** A centroid's value: its features, or Undefined when every feature is
      NaN. The division of a sum by a cluster size of 0 gives 0/0 = NaN in
      every feature; a NaN centroid is never nearer than anything and never
      moves farther than anything, since no comparison with NaN holds. */
  datatype Centroid = At(v: seq<real>) | Undefined

  /** Every defined centroid has n features. */
  predicate WellFormed(cs: seq<Centroid>, n: nat) {
    forall c :: 0 <= c < |cs| ==> cs[c].At? ==> |cs[c].v| == n
  }

  /** The centroid a group of feature vectors gets after the division: the
      sum over the size for a non-empty group; NaN for an empty group with
      at least one feature; the empty vector when there are no features. */
  function Mean(g: seq<seq<real>>, n: nat): (c: Centroid)
    requires Uniform(g, n)
    ensures c.At? ==> |c.v| == n
    ensures c.Undefined? <==> g == [] && n >= 1
  {
    if g == [] then (if n == 0 then At([]) else Undefined)
    else At(VDiv(Sum(g, n), |g| as real))
  }

  /** A non-empty cluster's centroid is the mean of its members: feature j
      is the sum of the members' feature j over the number of members. */
  lemma MeanIsAverage(g: seq<seq<real>>, n: nat, j: nat)
    requires Uniform(g, n) && |g| > 0 && j < n
    ensures Mean(g, n).At? && Mean(g, n).v[j] == Total(Column(g, j)) / (|g| as real)
  {
    SumIsColumnTotal(g, n, j);
  }

  // ---------------------------------------------------------------------
  // Assignment

  /** Double.MAX_VALUE squared: the starting bestDist, on squares. */
  const MAX_SQ: real := MAX_VALUE * MAX_VALUE

  /** The squared distance from each centroid to v, None for a NaN centroid. */
  function Dists(cs: seq<Centroid>, v: seq<real>): (ds: seq<Option<real>>)
    requires WellFormed(cs, |v|)
    ensures |ds| == |cs|
  {
    seq(|cs|, i requires 0 <= i < |cs| =>
      if cs[i].Undefined? then None else Some(SqDist(cs[i].v, v)))
  }

  /** (best, bestDist) after the scan over the centroids: (0, MAX_VALUE),
      moved to every distance that is strictly smaller, in order. */
  function Scan(ds: seq<Option<real>>): (nat, real) {
    if ds == [] then (0, MAX_SQ)
    else
      var r := Scan(ds[..|ds| - 1]);
      var x := ds[|ds| - 1];
      if x.Some? && x.value < r.1 then (|ds| - 1, x.value) else r
  }

  /** The index the assignment loop settles on. */
  function Closest(ds: seq<Option<real>>): nat {
    Scan(ds).0
  }

  lemma {:induction false} ScanIsFirstMinimum(ds: seq<Option<real>>)
    ensures var (b, d) := Scan(ds);
      d <= MAX_SQ
      && (d == MAX_SQ ==> b == 0)
      && (d < MAX_SQ ==> b < |ds| && ds[b] == Some(d))
      && (forall i :: 0 <= i < |ds| && ds[i].Some? ==> d <= ds[i].value)
      && (forall i :: 0 <= i < b && ds[i].Some? ==> d < ds[i].value)
    decreases |ds|
  {
    if ds != [] {
      var n := |ds| - 1;
      var pre := ds[..n];
      ScanIsFirstMinimum(pre);
      var (b, d) := Scan(pre);
      assert forall i :: 0 <= i < n ==> pre[i] == ds[i];
      if !(ds[n].Some? && ds[n].value < d) {
        assert Scan(ds) == (b, d);
        if d < MAX_SQ {
          assert ds[b] == pre[b];
        }
      }
    }
  }

  /** The assignment is an argmin with the lowest index winning ties: when
      some centroid is within MAX_VALUE, the chosen one is at least as near
      as every centroid and strictly nearer than every earlier one; when
      none is, the point goes to cluster 0. */
  lemma ClosestIsFirstNearest(ds: seq<Option<real>>)
    requires |ds| > 0
    ensures Closest(ds) < |ds|
    ensures (exists i :: 0 <= i < |ds| && ds[i].Some? && ds[i].value < MAX_SQ) ==>
      var b := Closest(ds);
      ds[b].Some?
      && (forall i :: 0 <= i < |ds| && ds[i].Some? ==> ds[b].value <= ds[i].value)
      && (forall i :: 0 <= i < b && ds[i].Some? ==> ds[b].value < ds[i].value)
    ensures (forall i :: 0 <= i < |ds| && ds[i].Some? ==> ds[i].value >= MAX_SQ) ==>
      Closest(ds) == 0
  {
    ScanIsFirstMinimum(ds);
  }

  /** The cluster each point joins, point by point. */
  function Assignment(cs: seq<Centroid>, vs: seq<seq<real>>, n: nat): (tags: seq<nat>)
    requires WellFormed(cs, n) && Uniform(vs, n)
    ensures |tags| == |vs|
  {
    seq(|vs|, u requires 0 <= u < |vs| => Closest(Dists(cs, vs[u])))
  }

  /** With at least one centroid every tag names a cluster. */
  lemma AssignmentInRange(cs: seq<Centroid>, vs: seq<seq<real>>, n: nat)
    requires WellFormed(cs, n) && Uniform(vs, n) && |cs| > 0
    ensures forall u :: 0 <= u < |vs| ==> Assignment(cs, vs, n)[u] < |cs|
  {
    forall u | 0 <= u < |vs| ensures Assignment(cs, vs, n)[u] < |cs| {
      ClosestIsFirstNearest(Dists(cs, vs[u]));
    }
  }

  /** In a pass every point lands in exactly one cluster: the clusters'
      members together are the points, each as often as in the set, and
      each member of cluster c is a point whose nearest centroid is c. */
  lemma EveryPointOnce<T>(ps: seq<T>, cs: seq<Centroid>, vs: seq<seq<real>>, n: nat)
    requires WellFormed(cs, n) && Uniform(vs, n) && |cs| > 0 && |ps| == |vs|
    ensures var g := Groups(ps, Assignment(cs, vs, n), |cs|);
      multiset(Concat(g)) == multiset(ps) && |Concat(g)| == |ps|
    ensures forall c, p :: 0 <= c < |cs| && p in Groups(ps, Assignment(cs, vs, n), |cs|)[c] ==>
      exists u :: 0 <= u < |ps| && ps[u] == p && Closest(Dists(cs, vs[u])) == c
  {
    var tags := Assignment(cs, vs, n);
    AssignmentInRange(cs, vs, n);
    GroupsPartition(ps, tags, |cs|);
    var g := Groups(ps, tags, |cs|);
    assert |multiset(Concat(g))| == |Concat(g)|;
    forall c, p | 0 <= c < |cs| && p in g[c]
      ensures exists u :: 0 <= u < |ps| && ps[u] == p && Closest(Dists(cs, vs[u])) == c
    {
      GroupsTagged(ps, tags, |cs|, c, p);
    }
  }

  /** The groups of uniform vectors are uniform. */
  lemma {:induction false} GroupsUniform(vs: seq<seq<real>>, tags: seq<nat>, k: nat, n: nat)
    requires |tags| == |vs| && Uniform(vs, n)
    ensures forall c :: 0 <= c < k ==> Uniform(Groups(vs, tags, k)[c], n)
    decreases |vs|
  {
    if vs != [] {
      var m := |vs| - 1;
      assert Uniform(vs[..m], n);
      GroupsUniform(vs[..m], tags[..m], k, n);
    }
  }

  // ---------------------------------------------------------------------
  // The pass and the iteration, on values

  /** The centroids after one pass from cs. */
  function Next(cs: seq<Centroid>, vs: seq<seq<real>>, n: nat): (cs': seq<Centroid>)
    requires WellFormed(cs, n) && Uniform(vs, n)
    ensures |cs'| == |cs| && WellFormed(cs', n)
  {
    var tags := Assignment(cs, vs, n);
    GroupsUniform(vs, tags, |cs|, n);
    var g := Groups(vs, tags, |cs|);
    seq(|cs|, c requires 0 <= c < |cs| => Mean(g[c], n))
  }

  /** How far each centroid moved, squared; None when either end is NaN. */
  function Moves(cs: seq<Centroid>, cs': seq<Centroid>, n: nat): (ds: seq<Option<real>>)
    requires |cs| == |cs'| && WellFormed(cs, n) && WellFormed(cs', n)
    ensures |ds| == |cs|
  {
    seq(|cs|, i requires 0 <= i < |cs| =>
      if cs[i].At? && cs'[i].At? then Some(SqDist(cs'[i].v, cs[i].v)) else None)
  }

  /** largestChange after the division loop: 0, raised to every movement
      that is strictly larger, in order. */
  function Largest(ds: seq<Option<real>>): real {
    if ds == [] then 0.0
    else
      var m := Largest(ds[..|ds| - 1]);
      var x := ds[|ds| - 1];
      if x.Some? && x.value > m then x.value else m
  }

  /** largestChange is the largest movement, and at least 0: no movement
      exceeds it, and it is 0 or one of the movements. */
  lemma {:induction false} LargestIsMaximum(ds: seq<Option<real>>)
    ensures Largest(ds) >= 0.0
    ensures forall i :: 0 <= i < |ds| && ds[i].Some? ==> ds[i].value <= Largest(ds)
    ensures Largest(ds) == 0.0 || exists i :: 0 <= i < |ds| && ds[i] == Some(Largest(ds))
    decreases |ds|
  {
    if ds != [] {
      var n := |ds| - 1;
      var pre := ds[..n];
      LargestIsMaximum(pre);
      assert forall i :: 0 <= i < n ==> pre[i] == ds[i];
    }
  }

  /** The centroids after m passes from cs0. */
  function Iterate(cs0: seq<Centroid>, vs: seq<seq<real>>, n: nat, m: nat): (cs: seq<Centroid>)
    requires WellFormed(cs0, n) && Uniform(vs, n)
    ensures |cs| == |cs0| && WellFormed(cs, n)
  {
    if m == 0 then cs0 else Next(Iterate(cs0, vs, n, m - 1), vs, n)
  }

  /** largestChange of pass m (m >= 1), squared. */
  function Change(cs0: seq<Centroid>, vs: seq<seq<real>>, n: nat, m: nat): real
    requires WellFormed(cs0, n) && Uniform(vs, n) && m >= 1
  {
    Largest(Moves(Iterate(cs0, vs, n, m - 1), Iterate(cs0, vs, n, m), n))
  }

  /** largestChange >= threshold, stated on the squared change. */
  predicate Moved(change: real, threshold: real) {
    threshold <= 0.0 || change >= threshold * threshold
  }

  /** hist is a run of the model from cs0: each entry is the next
      centroids of the one before. */
  ghost predicate Trace(hist: seq<seq<Centroid>>, cs0: seq<Centroid>, vs: seq<seq<real>>, n: nat)
    requires Uniform(vs, n)
  {
    |hist| >= 1 && hist[0] == cs0
    && (forall i :: 0 <= i < |hist| ==> |hist[i]| == |cs0| && WellFormed(hist[i], n))
    && forall i :: 0 <= i < |hist| - 1 ==> hist[i + 1] == Next(hist[i], vs, n)
  }

  /** The largestChange of pass j of a run. */
  ghost function Shift(hist: seq<seq<Centroid>>, n: nat, j: nat): real
    requires 1 <= j < |hist| && |hist[j - 1]| == |hist[j]|
    requires WellFormed(hist[j - 1], n) && WellFormed(hist[j], n)
  {
    Largest(Moves(hist[j - 1], hist[j], n))
  }

  /** A run extends by one pass, and the passes it had keep their largestChange. */
  lemma TraceSnoc(hist: seq<seq<Centroid>>, cs0: seq<Centroid>, vs: seq<seq<real>>, n: nat)
    requires Uniform(vs, n) && Trace(hist, cs0, vs, n)
    ensures Trace(hist + [Next(hist[|hist| - 1], vs, n)], cs0, vs, n)
    ensures forall j :: 1 <= j < |hist| ==>
      Shift(hist + [Next(hist[|hist| - 1], vs, n)], n, j) == Shift(hist, n, j)
  {
  }

  /** Entry m of a run is the centroids after m passes. */
  lemma {:induction false} TraceIsIterate(hist: seq<seq<Centroid>>, cs0: seq<Centroid>, vs: seq<seq<real>>, n: nat)
    requires Uniform(vs, n) && Trace(hist, cs0, vs, n)
    ensures forall m :: 0 <= m < |hist| ==> hist[m] == Iterate(cs0, vs, n, m)
    decreases |hist|
  {
    if |hist| > 1 {
      var pre := hist[..|hist| - 1];
      TraceIsIterate(pre, cs0, vs, n);
    }
  }

  // ---------------------------------------------------------------------
  // Clusters

  class Cluster {
    /** The points added to the cluster, in order. */
    var members: seq<Point>
    /** Assigned once, right after the cluster is made. */
    const centroid: Point
    /** The centroid's features are NaN: the pass that made this cluster
        divided its zero sum by a size of 0. Automatically false for a
        cluster that has a member, or when there are no features. */
    var undefined: bool

    constructor (centroid: Point)
      ensures this.centroid == centroid && members == [] && !undefined
    {
      this.centroid := centroid;
      members := [];
      undefined := false;
    }

    /** size(): the number of members. */
    function Size(): (r: nat)
      reads this
      ensures r == |members|
    {
      |members|
    }

    method Add(p: Point)
      modifies this`members
      ensures members == old(members) + [p]
    {
      members := members + [p];
    }
  }

  /** The cluster's centroid has the value x. */
  ghost predicate Shows(cl: Cluster, x: Centroid)
    reads cl, cl.centroid.features
  {
    (cl.undefined <==> x.Undefined?) && (x.At? ==> cl.centroid.features[..] == x.v)
  }

  /** Cluster c has the centroid cs[c], for every c. */
  ghost predicate ShowAll(cls: seq<Cluster>, cs: seq<Centroid>)
    reads set cl | cl in cls, set cl | cl in cls :: cl.centroid.features
  {
    |cls| == |cs| && forall c :: 0 <= c < |cls| ==> Shows(cls[c], cs[c])
  }

  /** The clusters hold the centroids cs and the member lists groups. */
  ghost predicate Holds(cls: seq<Cluster>, cs: seq<Centroid>, groups: seq<seq<Point>>)
    reads set cl | cl in cls, set cl | cl in cls :: cl.centroid.features
  {
    ShowAll(cls, cs) && |groups| == |cls| && forall c :: 0 <= c < |cls| ==> cls[c].members == groups[c]
  }

  /** The k clusters each pass starts from: no members and a zero centroid,
      every cluster and every centroid array new and distinct. */
  method NewClusters(k: nat, n: nat) returns (next: seq<Cluster>, ghost arrs: seq<array<real>>)
    ensures |next| == k && |arrs| == k
    ensures forall c :: 0 <= c < k ==>
      fresh(next[c]) && fresh(next[c].centroid.features) && arrs[c] == next[c].centroid.features
    ensures forall c :: 0 <= c < k ==>
      next[c].members == [] && !next[c].undefined && next[c].centroid.features[..] == Zeros(n)
    ensures forall c, d :: 0 <= c < d < k ==>
      next[c] != next[d] && next[c].centroid.features != next[d].centroid.features
  {
    next, arrs := [], [];
    for c := 0 to k
      invariant |next| == c && |arrs| == c
      invariant forall i :: 0 <= i < c ==>
        fresh(next[i]) && fresh(next[i].centroid.features) && arrs[i] == next[i].centroid.features
      invariant forall i :: 0 <= i < c ==>
        next[i].members == [] && !next[i].undefined && next[i].centroid.features[..] == Zeros(n)
      invariant forall i, j :: 0 <= i < j < c ==>
        next[i] != next[j] && next[i].centroid.features != next[j].centroid.features
    {
      var z := new Point.Zero(n);
      var cl := new Cluster(z);
      next, arrs := next + [cl], arrs + [z.features];
    }
  }

  /** The scan over the centroids for one point p. */
  method NearestCentroid(clusters: seq<Cluster>, p: Point, ghost cs: seq<Centroid>)
    returns (best: nat)
    requires |clusters| == |cs| && WellFormed(cs, p.features.Length)
    requires forall c :: 0 <= c < |cs| ==> Shows(clusters[c], cs[c])
    ensures best == Closest(Dists(cs, p.features[..]))
  {
    ghost var ds := Dists(cs, p.features[..]);
    best := 0;
    var bestDist := MAX_SQ;
    for i := 0 to |clusters|
      invariant (best, bestDist) == Scan(ds[..i])
    {
      assert ds[..i + 1][..i] == ds[..i];
      if !clusters[i].undefined {
        var d := clusters[i].centroid.Distance(p);
        if d.value < bestDist {
          best := i;
          bestDist := d.value;
        }
      }
    }
    assert ds[..|clusters|] == ds;
  }

  /** Adds p's features onto the centroid c, feature by feature. */
  method Accumulate(c: Point, p: Point)
    requires c.features != p.features && c.features.Length == p.features.Length
    modifies c.features
    ensures c.features[..] == VAdd(old(c.features[..]), p.features[..])
  {
    for i := 0 to c.features.Length
      invariant forall j :: 0 <= j < i ==> c.features[j] == old(c.features[j]) + p.features[j]
      invariant forall j :: i <= j < c.features.Length ==> c.features[j] == old(c.features[j])
    {
      c.features[i] := c.features[i] + p.Feature(i).value;
    }
  }

  /** Divides every feature of c by size. */
  method DivideBy(c: Point, size: nat)
    requires size > 0
    modifies c.features
    ensures c.features[..] == VDiv(old(c.features[..]), size as real)
  {
    for j := 0 to c.features.Length
      invariant forall i :: 0 <= i < j ==> c.features[i] == old(c.features[i]) / (size as real)
      invariant forall i :: j <= i < c.features.Length ==> c.features[i] == old(c.features[i])
    {
      c.features[j] := c.features[j] / (size as real);
    }
  }

  /** One step of the assignment loop once the nearest cluster `best` of p
      is known: p joins that cluster and is added onto its centroid; every
      other cluster stays as it was. */
  method Join(next: seq<Cluster>, best: nat, p: Point, n: nat,
              ghost gp: seq<seq<Point>>, ghost gv: seq<seq<seq<real>>>)
    requires best < |next| == |gp| == |gv| && p.features.Length == n
    requires forall c, d :: 0 <= c < d < |next| ==>
      next[c] != next[d] && next[c].centroid.features != next[d].centroid.features
    requires forall c :: 0 <= c < |next| ==> next[c].centroid.features != p.features
    requires forall c :: 0 <= c < |next| ==>
      Uniform(gv[c], n) && next[c].members == gp[c]
      && next[c].centroid.features[..] == Sum(gv[c], n) && !next[c].undefined
    modifies next[best], next[best].centroid.features
    ensures var gv' := gv[best := gv[best] + [p.features[..]]];
      forall c :: 0 <= c < |gv'| ==> Uniform(gv'[c], n)
    ensures forall c :: 0 <= c < |next| ==>
      next[c].members == gp[best := gp[best] + [p]][c]
      && next[c].centroid.features[..] == Sum(gv[best := gv[best] + [p.features[..]]][c], n)
      && !next[c].undefined
  {
    SumSnoc(gv[best], p.features[..], n);
    next[best].Add(p);
    Accumulate(next[best].centroid, p);
  }

  /** The body of the assignment loop for one point p: find its nearest
      centroid, then join that cluster. */
  method Place(clusters: seq<Cluster>, next: seq<Cluster>, p: Point, n: nat,
               ghost cs: seq<Centroid>, ghost gp: seq<seq<Point>>,
               ghost gv: seq<seq<seq<real>>>, ghost arrs: seq<array<real>>, ghost x: seq<real>)
    returns (best: nat)
    requires |clusters| == |cs| == |next| == |gp| == |gv| == |arrs| > 0
    requires WellFormed(cs, n) && p.features.Length == n && p.features[..] == x
    requires forall c :: 0 <= c < |cs| ==> Shows(clusters[c], cs[c])
    requires forall c :: 0 <= c < |next| ==> arrs[c] == next[c].centroid.features
    requires forall c, d :: 0 <= c < d < |next| ==>
      next[c] != next[d] && next[c].centroid.features != next[d].centroid.features
    requires forall c :: 0 <= c < |next| ==> next[c].centroid.features != p.features
    requires forall c :: 0 <= c < |next| ==>
      Uniform(gv[c], n) && next[c].members == gp[c]
      && next[c].centroid.features[..] == Sum(gv[c], n) && !next[c].undefined
    modifies next, arrs
    ensures best < |next| && best == Closest(Dists(cs, x))
    ensures var gv' := gv[best := gv[best] + [x]];
      forall c :: 0 <= c < |gv'| ==> Uniform(gv'[c], n)
    ensures forall c :: 0 <= c < |next| ==>
      next[c].members == gp[best := gp[best] + [p]][c]
      && next[c].centroid.features[..] == Sum(gv[best := gv[best] + [x]][c], n)
      && !next[c].undefined
  {
    best := NearestCentroid(clusters, p, cs);
    ClosestIsFirstNearest(Dists(cs, p.features[..]));
    Join(next, best, p, n, gp, gv);
  }

  /** The assignment loop of a pass: fresh clusters, then every point, in
      the set's order, joins the cluster of its nearest centroid and is
      added onto that cluster's centroid. */
  method Assign(ps: seq<Point>, clusters: seq<Cluster>, n: nat,
                ghost vs: seq<seq<real>>, ghost cs: seq<Centroid>)
    returns (next: seq<Cluster>, ghost tags: seq<nat>)
    requires |clusters| == |cs| && WellFormed(cs, n) && Uniform(vs, n)
    requires |ps| > 0 ==> |clusters| > 0
    requires |vs| == |ps| && forall u :: 0 <= u < |ps| ==> ps[u].features[..] == vs[u]
    requires forall c :: 0 <= c < |cs| ==> Shows(clusters[c], cs[c])
    ensures |next| == |clusters| && tags == Assignment(cs, vs, n)
    ensures forall c :: 0 <= c < |next| ==> fresh(next[c]) && fresh(next[c].centroid.features)
    ensures forall c, d :: 0 <= c < d < |next| ==>
      next[c] != next[d] && next[c].centroid.features != next[d].centroid.features
    ensures forall c :: 0 <= c < |next| ==> Uniform(Groups(vs, tags, |next|)[c], n)
    ensures forall c :: 0 <= c < |next| ==>
      next[c].members == Groups(ps, tags, |next|)[c]
      && next[c].centroid.features[..] == Sum(Groups(vs, tags, |next|)[c], n)
      && !next[c].undefined
  {
    var k := |clusters|;
    ghost var arrs;
    next, arrs := NewClusters(k, n);
    tags := [];
    ghost var gp: seq<seq<Point>> := Groups([], [], k);
    ghost var gv: seq<seq<seq<real>>> := Groups([], [], k);
    for t := 0 to |ps|
      invariant tags == Assignment(cs, vs[..t], n)
      invariant gp == Groups(ps[..t], tags, k) && gv == Groups(vs[..t], tags, k)
      invariant forall c :: 0 <= c < k ==> Uniform(gv[c], n)
      invariant forall c :: 0 <= c < k ==>
        next[c].members == gp[c] && next[c].centroid.features[..] == Sum(gv[c], n)
        && !next[c].undefined
    {
      var best := Place(clusters, next, ps[t], n, cs, gp, gv, arrs, vs[t]);
      GroupsPrefixStep(ps, tags, t, best, k);
      GroupsPrefixStep(vs, tags, t, best, k);
      AssignmentPrefixStep(cs, vs, n, t);
      gp := gp[best := gp[best] + [ps[t]]];
      gv := gv[best := gv[best] + [vs[t]]];
      tags := tags + [best];
    }
    assert ps[..|ps|] == ps && vs[..|vs|] == vs;
  }

  lemma AssignmentPrefixStep(cs: seq<Centroid>, vs: seq<seq<real>>, n: nat, t: nat)
    requires WellFormed(cs, n) && Uniform(vs, n) && t < |vs|
    ensures Assignment(cs, vs[..t + 1], n) == Assignment(cs, vs[..t], n) + [Closest(Dists(cs, vs[t]))]
  {
  }

  lemma SumSnoc(g: seq<seq<real>>, x: seq<real>, n: nat)
    requires Uniform(g, n) && |x| == n
    ensures Sum(g + [x], n) == VAdd(Sum(g, n), x)
  {
    assert (g + [x])[..|g|] == g;
  }

  /** One round of the division loop for cluster i: divide the sum by the
      size (a size of 0 makes the centroid NaN when there are features),
      then measure, squared, how far the centroid moved from prev's, None
      when either is NaN. */
  method Settle(cl: Cluster, prev: Cluster, n: nat, ghost g: seq<seq<real>>, ghost x: Centroid)
    returns (moved: Option<real>)
    requires Uniform(g, n) && |cl.members| == |g|
    requires cl.centroid.features[..] == Sum(g, n) && !cl.undefined
    requires Shows(prev, x) && (x.At? ==> |x.v| == n)
    requires cl != prev && cl.centroid.features != prev.centroid.features
    modifies cl`undefined, cl.centroid.features
    ensures Shows(cl, Mean(g, n)) && Shows(prev, x)
    ensures moved == if Mean(g, n).At? && x.At? then Some(SqDist(Mean(g, n).v, x.v)) else None
  {
    if cl.Size() > 0 {
      DivideBy(cl.centroid, cl.Size());
    } else if n >= 1 {
      cl.undefined := true;
    }
    if cl.undefined || prev.undefined {
      return None;
    }
    var d := cl.centroid.Distance(prev.centroid);
    return Some(d.value);
  }

  lemma LargestPrefixStep(ds: seq<Option<real>>, i: nat)
    requires i < |ds|
    ensures Largest(ds[..i + 1])
      == if ds[i].Some? && ds[i].value > Largest(ds[..i]) then ds[i].value else Largest(ds[..i])
  {
    assert ds[..i + 1][..i] == ds[..i];
  }

  /** One pass: the assignment loop, then the division loop, which turns
      every centroid sum into the mean and tracks largestChange. The new
      clusters are the next centroids of the model; nothing that existed
      before the pass is changed. */
  method Step(ps: seq<Point>, clusters: seq<Cluster>, n: nat,
              ghost vs: seq<seq<real>>, ghost cs: seq<Centroid>)
    returns (next: seq<Cluster>, largestChange: real)
    requires |clusters| == |cs| && WellFormed(cs, n) && Uniform(vs, n)
    requires |ps| > 0 ==> |clusters| > 0
    requires |vs| == |ps| && forall u :: 0 <= u < |ps| ==> ps[u].features[..] == vs[u]
    requires forall c :: 0 <= c < |cs| ==> Shows(clusters[c], cs[c])
    ensures |next| == |clusters|
    ensures forall c :: 0 <= c < |next| ==>
      Shows(next[c], Next(cs, vs, n)[c])
      && next[c].members == Groups(ps, Assignment(cs, vs, n), |next|)[c]
    ensures largestChange == Largest(Moves(cs, Next(cs, vs, n), n))
    ensures forall c :: 0 <= c < |next| ==> fresh(next[c]) && fresh(next[c].centroid.features)
  {
    ghost var tags;
    next, tags := Assign(ps, clusters, n, vs, cs);
    var k := |next|;
    GroupsSameShape(ps, vs, tags, k);
    ghost var arrs := seq(k, c requires 0 <= c < k => next[c].centroid.features);
    largestChange := Divide(next, clusters, n, arrs, Groups(vs, tags, k), cs, Next(cs, vs, n));
  }

  /** The division loop of one pass: every new centroid, holding the sum of
      its group, becomes the group's mean (NaN when the group is empty), and
      largestChange is the largest distance moved. Only the new clusters
      change, and their members stay as they are. */
  method Divide(next: seq<Cluster>, clusters: seq<Cluster>, n: nat, ghost arrs: seq<array<real>>,
                ghost gv: seq<seq<seq<real>>>, ghost cs: seq<Centroid>, ghost cs': seq<Centroid>)
    returns (largestChange: real)
    requires |next| == |clusters| == |cs| == |cs'| == |gv| == |arrs|
    requires WellFormed(cs, n) && WellFormed(cs', n)
    requires forall c :: 0 <= c < |next| ==> arrs[c] == next[c].centroid.features
    requires forall c :: 0 <= c < |next| ==> Uniform(gv[c], n) && cs'[c] == Mean(gv[c], n)
    requires forall c :: 0 <= c < |next| ==>
      |next[c].members| == |gv[c]| && next[c].centroid.features[..] == Sum(gv[c], n) && !next[c].undefined
    requires forall c :: 0 <= c < |cs| ==> Shows(clusters[c], cs[c])
    requires forall c, d :: 0 <= c < |next| && 0 <= d < |next| && c != d ==> next[c] != next[d] && arrs[c] != arrs[d]
    requires forall c, d :: 0 <= c < |next| && 0 <= d < |clusters| ==>
      next[c] != clusters[d] && arrs[c] != clusters[d].centroid.features
    modifies next, arrs
    ensures forall c :: 0 <= c < |next| ==> Shows(next[c], cs'[c]) && next[c].members == old(next[c].members)
    ensures largestChange == Largest(Moves(cs, cs', n))
  {
    var k := |next|;
    ghost var moves := Moves(cs, cs', n);
    largestChange := 0.0;
    for i := 0 to k
      invariant Divided(next, arrs, gv, cs', n, i)
      invariant forall c :: 0 <= c < k ==> next[c].members == old(next[c].members)
      invariant forall c :: 0 <= c < k ==> Shows(clusters[c], cs[c])
      invariant largestChange == Largest(moves[..i])
    {
      largestChange := DivideAt(next, clusters, n, arrs, gv, cs, cs', i, next[i], largestChange);
    }
    assert moves[..k] == moves;
    forall c | 0 <= c < k ensures Shows(next[c], cs'[c]) {
    }
  }

  /** The state of the division loop before round i: the clusters before i
      show their means, the others still hold their sums. */
  ghost predicate Divided(next: seq<Cluster>, arrs: seq<array<real>>, gv: seq<seq<seq<real>>>,
                          cs': seq<Centroid>, n: nat, i: nat)
    reads next, arrs
    requires |next| == |cs'| == |gv| == |arrs|
  {
    i <= |next|
    && (forall c :: 0 <= c < i ==>
         (next[c].undefined <==> cs'[c].Undefined?) && (cs'[c].At? ==> arrs[c][..] == cs'[c].v))
    && (forall c :: i <= c < |next| ==> Uniform(gv[c], n) && arrs[c][..] == Sum(gv[c], n) && !next[c].undefined)
  }

  /** Round i of the division loop. */
  method DivideAt(next: seq<Cluster>, clusters: seq<Cluster>, n: nat, ghost arrs: seq<array<real>>,
                  ghost gv: seq<seq<seq<real>>>, ghost cs: seq<Centroid>, ghost cs': seq<Centroid>,
                  i: nat, cl: Cluster, change: real)
    returns (largestChange: real)
    requires |next| == |clusters| == |cs| == |cs'| == |gv| == |arrs| && i < |next| && cl == next[i]
    requires WellFormed(cs, n) && WellFormed(cs', n)
    requires forall c :: 0 <= c < |next| ==> arrs[c] == next[c].centroid.features
    requires forall c :: 0 <= c < |next| ==> Uniform(gv[c], n) && cs'[c] == Mean(gv[c], n)
    requires forall c :: 0 <= c < |next| ==> |next[c].members| == |gv[c]|
    requires forall c :: 0 <= c < |cs| ==> Shows(clusters[c], cs[c])
    requires forall c, d :: 0 <= c < |next| && 0 <= d < |next| && c != d ==> next[c] != next[d] && arrs[c] != arrs[d]
    requires forall c, d :: 0 <= c < |next| && 0 <= d < |clusters| ==>
      next[c] != clusters[d] && arrs[c] != clusters[d].centroid.features
    requires Divided(next, arrs, gv, cs', n, i)
    requires change == Largest(Moves(cs, cs', n)[..i])
    modifies cl`undefined, arrs[i]
    ensures Divided(next, arrs, gv, cs', n, i + 1)
    ensures forall c :: 0 <= c < |cs| ==> Shows(clusters[c], cs[c])
    ensures largestChange == Largest(Moves(cs, cs', n)[..i + 1])
  {
    var moved := Settle(cl, clusters[i], n, gv[i], cs[i]);
    assert Shows(next[i], cs'[i]);
    LargestPrefixStep(Moves(cs, cs', n), i);
    largestChange := change;
    if moved.Some? && moved.value > largestChange {
      largestChange := moved.value;
    }
  }

  /** Seeding: cluster i starts with a copy of the i-th point of the
      shuffled order and no members. */
  method Seed(order: seq<Point>, k: nat) returns (clusters: seq<Cluster>, ghost seeds: seq<Centroid>)
    requires k <= |order|
    ensures |clusters| == k && |seeds| == k
    ensures forall c :: 0 <= c < k ==> fresh(clusters[c]) && fresh(clusters[c].centroid.features)
    ensures forall c :: 0 <= c < k ==>
      seeds[c] == At(order[c].features[..]) && Shows(clusters[c], seeds[c]) && clusters[c].members == []
  {
    clusters, seeds := [], [];
    for i := 0 to k
      invariant |clusters| == i && |seeds| == i
      invariant forall c :: 0 <= c < i ==> fresh(clusters[c]) && fresh(clusters[c].centroid.features)
      invariant forall c :: 0 <= c < i ==>
        seeds[c] == At(order[c].features[..]) && Shows(clusters[c], seeds[c]) && clusters[c].members == []
    {
      var centroid := new Point.Copy(order[i]);
      var cl := new Cluster(centroid);
      clusters, seeds := clusters + [cl], seeds + [At(order[i].features[..])];
    }
  }

  /** The do-while loop: one pass, then more while largestChange >= threshold
      and nIters <= maxIters. The result is the model's centroids after
      nIters passes, and nIters is the first pass count at which the test
      fails. */
  method Run(ps: seq<Point>, seeded: seq<Cluster>, n: nat, threshold: real, maxIters: int,
             ghost vs: seq<seq<real>>, ghost seeds: seq<Centroid>)
    returns (clusters: seq<Cluster>, nIters: nat)
    requires |seeded| == |seeds| && WellFormed(seeds, n) && Uniform(vs, n)
    requires maxIters < INT_MAX
    requires |ps| > 0 ==> |seeds| > 0
    requires |vs| == |ps| && forall u :: 0 <= u < |ps| ==> ps[u].features[..] == vs[u]
    requires forall c :: 0 <= c < |seeds| ==> Shows(seeded[c], seeds[c])
    ensures |clusters| == |seeds|
    ensures 1 <= nIters && (nIters == 1 || nIters <= maxIters + 1)
    ensures forall c :: 0 <= c < |clusters| ==>
      Shows(clusters[c], Iterate(seeds, vs, n, nIters)[c])
      && clusters[c].members == Groups(ps, Assignment(Iterate(seeds, vs, n, nIters - 1), vs, n), |seeds|)[c]
    ensures forall m :: 1 <= m < nIters ==> Moved(Change(seeds, vs, n, m), threshold) && m <= maxIters
    ensures !(Moved(Change(seeds, vs, n, nIters), threshold) && nIters <= maxIters)
    ensures forall c :: 0 <= c < |clusters| ==> fresh(clusters[c]) && fresh(clusters[c].centroid.features)
  {
    var largestChange;
    ghost var hist, grp;
    clusters, largestChange, hist, grp := First(ps, seeded, n, threshold, maxIters, vs, seeds);
    nIters := 1;
    while Moved(largestChange, threshold) && nIters <= maxIters
      invariant Looping(clusters, largestChange, nIters, hist, grp, ps, seeds, vs, n, threshold, maxIters)
      invariant forall c :: 0 <= c < |clusters| ==> fresh(clusters[c]) && fresh(clusters[c].centroid.features)
      decreases maxIters - nIters
    {
      clusters, largestChange, hist, grp :=
        Advance(ps, clusters, n, threshold, maxIters, vs, seeds, nIters, largestChange, hist, grp);
      nIters := nIters + 1;
    }
    Conclude(ps, clusters, hist, seeds, vs, n, threshold, maxIters, nIters, largestChange, grp);
  }

  /** The state of the do-while loop after nIters passes: hist is the
      history so far, the clusters hold its last centroids and groups, and
      largestChange is the shift of the last pass. */
  ghost predicate Looping(clusters: seq<Cluster>, largestChange: real, nIters: nat,
                          hist: seq<seq<Centroid>>, grp: seq<seq<Point>>, ps: seq<Point>,
                          seeds: seq<Centroid>, vs: seq<seq<real>>, n: nat, threshold: real, maxIters: int)
    reads set cl | cl in clusters, set cl | cl in clusters :: cl.centroid.features
    requires Uniform(vs, n) && |vs| == |ps|
  {
    1 <= nIters && (nIters == 1 || nIters <= maxIters + 1) && |hist| == nIters + 1
    && Passes(hist, ps, grp, seeds, vs, n, threshold, maxIters)
    && Holds(clusters, hist[nIters], grp)
    && largestChange == Shift(hist, n, nIters)
  }

  /** The ghost history of the loop: hist is a run of the model from the
      seeds, grp the groups of its last pass, and the loop test held after
      every pass but the last. */
  ghost predicate Passes(hist: seq<seq<Centroid>>, ps: seq<Point>, grp: seq<seq<Point>>, seeds: seq<Centroid>,
                         vs: seq<seq<real>>, n: nat, threshold: real, maxIters: int)
    requires Uniform(vs, n) && |vs| == |ps|
  {
    Trace(hist, seeds, vs, n)
    && (|hist| >= 2 ==> grp == Groups(ps, Assignment(hist[|hist| - 2], vs, n), |seeds|))
    && forall j :: 1 <= j < |hist| - 1 ==> Moved(Shift(hist, n, j), threshold) && j <= maxIters
  }

  /** The largestChange of pass m of a run is the model's change of pass m. */
  lemma ShiftIsChange(hist: seq<seq<Centroid>>, cs0: seq<Centroid>, vs: seq<seq<real>>, n: nat)
    requires WellFormed(cs0, n) && Uniform(vs, n) && Trace(hist, cs0, vs, n)
    ensures forall m :: 1 <= m < |hist| ==> Shift(hist, n, m) == Change(cs0, vs, n, m)
  {
    TraceIsIterate(hist, cs0, vs, n);
    forall m | 1 <= m < |hist| ensures Shift(hist, n, m) == Change(cs0, vs, n, m) {
      assert hist[m - 1] == Iterate(cs0, vs, n, m - 1) && hist[m] == Iterate(cs0, vs, n, m);
    }
  }

  /** The history grows by one pass when the loop test held after the last. */
  lemma PassesSnoc(hist: seq<seq<Centroid>>, ps: seq<Point>, grp: seq<seq<Point>>, seeds: seq<Centroid>,
                   vs: seq<seq<real>>, n: nat, threshold: real, maxIters: int)
    requires Uniform(vs, n) && |vs| == |ps| && Passes(hist, ps, grp, seeds, vs, n, threshold, maxIters)
    requires |hist| >= 2 ==> Moved(Shift(hist, n, |hist| - 1), threshold) && |hist| - 1 <= maxIters
    ensures Passes(hist + [Next(hist[|hist| - 1], vs, n)], ps,
                   Groups(ps, Assignment(hist[|hist| - 1], vs, n), |seeds|), seeds, vs, n, threshold, maxIters)
  {
    TraceSnoc(hist, seeds, vs, n);
    var last := hist[|hist| - 1];
    var hist' := hist + [Next(last, vs, n)];
    assert hist'[|hist'| - 2] == last;
    forall j | 1 <= j < |hist'| - 1 ensures Moved(Shift(hist', n, j), threshold) && j <= maxIters {
      assert Shift(hist', n, j) == Shift(hist, n, j);
    }
  }

  /** What the loop's history says, in terms of the model's passes. */
  lemma Conclude(ps: seq<Point>, clusters: seq<Cluster>, hist: seq<seq<Centroid>>, seeds: seq<Centroid>,
                 vs: seq<seq<real>>, n: nat, threshold: real, maxIters: int, nIters: nat,
                 largestChange: real, grp: seq<seq<Point>>)
    requires WellFormed(seeds, n) && Uniform(vs, n) && |vs| == |ps|
    requires Looping(clusters, largestChange, nIters, hist, grp, ps, seeds, vs, n, threshold, maxIters)
    requires !(Moved(largestChange, threshold) && nIters <= maxIters)
    ensures |clusters| == |seeds|
    ensures forall c :: 0 <= c < |clusters| ==>
      Shows(clusters[c], Iterate(seeds, vs, n, nIters)[c])
      && clusters[c].members == Groups(ps, Assignment(Iterate(seeds, vs, n, nIters - 1), vs, n), |seeds|)[c]
    ensures forall m :: 1 <= m < nIters ==> Moved(Change(seeds, vs, n, m), threshold) && m <= maxIters
    ensures !(Moved(Change(seeds, vs, n, nIters), threshold) && nIters <= maxIters)
  {
    FinalClusters(ps, clusters, hist, seeds, vs, n, threshold, maxIters, nIters, grp);
    FinalTests(ps, hist, seeds, vs, n, threshold, maxIters, nIters, grp);
  }

  /** The clusters after the last pass are the model's after nIters passes. */
  lemma FinalClusters(ps: seq<Point>, clusters: seq<Cluster>, hist: seq<seq<Centroid>>, seeds: seq<Centroid>,
                      vs: seq<seq<real>>, n: nat, threshold: real, maxIters: int, nIters: nat,
                      grp: seq<seq<Point>>)
    requires WellFormed(seeds, n) && Uniform(vs, n) && 1 <= nIters && |vs| == |ps|
    requires |hist| == nIters + 1 && Passes(hist, ps, grp, seeds, vs, n, threshold, maxIters)
    requires Holds(clusters, hist[nIters], grp)
    ensures |clusters| == |seeds|
    ensures forall c :: 0 <= c < |clusters| ==>
      Shows(clusters[c], Iterate(seeds, vs, n, nIters)[c])
      && clusters[c].members == Groups(ps, Assignment(Iterate(seeds, vs, n, nIters - 1), vs, n), |seeds|)[c]
  {
    TraceIsIterate(hist, seeds, vs, n);
    var cur, prev := hist[nIters], hist[nIters - 1];
    assert cur == Iterate(seeds, vs, n, nIters) && prev == Iterate(seeds, vs, n, nIters - 1);
    assert grp == Groups(ps, Assignment(prev, vs, n), |seeds|);
  }

  /** The loop test held after every pass but the last, and failed after it. */
  lemma FinalTests(ps: seq<Point>, hist: seq<seq<Centroid>>, seeds: seq<Centroid>,
                   vs: seq<seq<real>>, n: nat, threshold: real, maxIters: int, nIters: nat,
                   grp: seq<seq<Point>>)
    requires WellFormed(seeds, n) && Uniform(vs, n) && 1 <= nIters && |vs| == |ps|
    requires |hist| == nIters + 1 && Passes(hist, ps, grp, seeds, vs, n, threshold, maxIters)
    requires !(Moved(Shift(hist, n, nIters), threshold) && nIters <= maxIters)
    ensures forall m :: 1 <= m < nIters ==> Moved(Change(seeds, vs, n, m), threshold) && m <= maxIters
    ensures !(Moved(Change(seeds, vs, n, nIters), threshold) && nIters <= maxIters)
  {
    ShiftIsChange(hist, seeds, vs, n);
    forall m | 1 <= m < nIters ensures Moved(Change(seeds, vs, n, m), threshold) && m <= maxIters {
      assert Moved(Shift(hist, n, m), threshold) && m <= maxIters;
    }
    assert Shift(hist, n, nIters) == Change(seeds, vs, n, nIters);
  }

  /** The first pass of the loop, from the seeded clusters. */
  method First(ps: seq<Point>, seeded: seq<Cluster>, n: nat, threshold: real, maxIters: int,
               ghost vs: seq<seq<real>>, ghost seeds: seq<Centroid>)
    returns (next: seq<Cluster>, largestChange: real, ghost hist: seq<seq<Centroid>>, ghost grp: seq<seq<Point>>)
    requires |seeded| == |seeds| && WellFormed(seeds, n) && Uniform(vs, n)
    requires |ps| > 0 ==> |seeds| > 0
    requires |vs| == |ps| && forall u :: 0 <= u < |ps| ==> ps[u].features[..] == vs[u]
    requires forall c :: 0 <= c < |seeds| ==> Shows(seeded[c], seeds[c])
    ensures Looping(next, largestChange, 1, hist, grp, ps, seeds, vs, n, threshold, maxIters)
    ensures forall c :: 0 <= c < |next| ==> fresh(next[c]) && fresh(next[c].centroid.features)
  {
    next, largestChange := Step(ps, seeded, n, vs, seeds);
    hist := [seeds, Next(seeds, vs, n)];
    grp := Groups(ps, Assignment(seeds, vs, n), |seeds|);
  }

  /** Pass m + 1 of the loop, from the clusters of pass m, entered because
      the loop test held after pass m. */
  method Advance(ps: seq<Point>, clusters: seq<Cluster>, n: nat, threshold: real, maxIters: int,
                 ghost vs: seq<seq<real>>, ghost seeds: seq<Centroid>, ghost m: nat, ghost change: real,
                 ghost hist: seq<seq<Centroid>>, ghost grp: seq<seq<Point>>)
    returns (next: seq<Cluster>, largestChange: real, ghost hist': seq<seq<Centroid>>, ghost grp': seq<seq<Point>>)
    requires WellFormed(seeds, n) && Uniform(vs, n) && (|ps| > 0 ==> |seeds| > 0)
    requires |vs| == |ps| && forall u :: 0 <= u < |ps| ==> ps[u].features[..] == vs[u]
    requires Looping(clusters, change, m, hist, grp, ps, seeds, vs, n, threshold, maxIters)
    requires Moved(change, threshold) && m <= maxIters
    ensures Looping(next, largestChange, m + 1, hist', grp', ps, seeds, vs, n, threshold, maxIters)
    ensures forall c :: 0 <= c < |next| ==> fresh(next[c]) && fresh(next[c].centroid.features)
  {
    ghost var cur := hist[m];
    assert |cur| == |seeds| && WellFormed(cur, n);
    next, largestChange := Step(ps, clusters, n, vs, cur);
    PassesSnoc(hist, ps, grp, seeds, vs, n, threshold, maxIters);
    hist' := hist + [Next(cur, vs, n)];
    grp' := Groups(ps, Assignment(cur, vs, n), |seeds|);
  }

  /** The scaling step for one point: feature i becomes feature i times
      scaling[i]. */
  method ScalePoint(p: Point, scaling: array<real>)
    requires p.features != scaling && p.features.Length <= scaling.Length
    modifies p.features
    ensures p.features[..] == Scaled(old(p.features[..]), scaling[..])
  {
    ghost var v := p.features[..];
    for i := 0 to p.features.Length
      invariant forall j :: 0 <= j < i ==> p.features[j] == v[j] * scaling[j]
      invariant forall j :: i <= j < p.features.Length ==> p.features[j] == v[j]
    {
      p.features[i] := p.Feature(i).value * scaling[i];
    }
    assert forall j :: 0 <= j < |v| ==> p.features[..][j] == Scaled(v, scaling[..])[j];
  }

  /** The scaling step: every point of the set, and nothing else, has each
      feature multiplied by its factor. */
  method Scale(ps: seq<Point>, n: nat, scaling: array<real>)
    requires AllLength(ps, n) && OwnArrays(ps) && n <= scaling.Length
    requires forall u :: 0 <= u < |ps| ==> ps[u].features != scaling
    modifies set u | 0 <= u < |ps| :: ps[u].features
    ensures forall u :: 0 <= u < |ps| ==>
      ps[u].features[..] == Scaled(old(ps[u].features[..]), scaling[..])
  {
    for t := 0 to |ps|
      invariant forall u :: 0 <= u < t ==>
        ps[u].features[..] == Scaled(old(ps[u].features[..]), scaling[..])
      invariant forall u :: t <= u < |ps| ==> ps[u].features[..] == old(ps[u].features[..])
    {
      ScalePoint(ps[t], scaling);
    }
  }

  /** The first part of compute: read the dimension (an empty set reports -1
      and then has no features to read, so 0 stands in) and, when a scaling
      array is given, scale every point in place. */
  method Prepare(points: PointSet, scaling: Option<array<real>>)
    returns (ps: seq<Point>, dim: nat, ghost vs: seq<seq<real>>)
    requires points.Valid() && OwnArrays(points.elems)
    requires scaling.Some? ==>
      points.dimension <= scaling.value.Length
      && forall u :: 0 <= u < |points.elems| ==> points.elems[u].features != scaling.value
    modifies set u | 0 <= u < |points.elems| :: points.elems[u].features
    ensures ps == points.elems && dim == if points.dimension < 0 then 0 else points.dimension
    ensures AllLength(ps, dim) && |vs| == |ps| && Uniform(vs, dim)
    ensures forall u :: 0 <= u < |ps| ==> ps[u].features[..] == vs[u]
    ensures forall u :: 0 <= u < |ps| ==>
      vs[u] == (if scaling.Some? then Scaled(old(ps[u].features[..]), scaling.value[..])
                else old(ps[u].features[..]))
  {
    var nFeatures := points.Dimension();
    dim := if nFeatures < 0 then 0 else nFeatures;
    ps := points.elems;
    if scaling.Some? {
      Scale(ps, dim, scaling.value);
    }
    vs := Values(ps);
  }

  /** A shuffle of the distinct points ps: as many points, none twice, each
      a member of ps with its dim features. */
  lemma Shuffled(order: seq<Point>, ps: seq<Point>, dim: nat)
    requires AllLength(ps, dim) && Distinct(ps) && multiset(order) == multiset(ps)
    ensures |order| == |ps| && Distinct(order) && AllLength(order, dim)
    ensures forall c :: 0 <= c < |order| ==> order[c] in ps
  {
    DistinctPermutation(order, ps);
    assert |order| == |multiset(order)| == |multiset(ps)| == |ps|;
    forall c | 0 <= c < |order| ensures order[c] in ps && order[c].features.Length == dim {
      assert order[c] in multiset(ps);
    }
  }

  /** The rest of compute on the (possibly scaled) points: seed k clusters
      with copies of the first k points of the order, then run the loop. */
  method Lloyd(ps: seq<Point>, dim: nat, k: nat, threshold: real, maxIters: int,
               order: seq<Point>, ghost vs: seq<seq<real>>)
    returns (clusters: seq<Cluster>, nIters: nat, ghost seeds: seq<Centroid>)
    requires AllLength(ps, dim) && Distinct(ps)
    requires maxIters < INT_MAX
    requires k <= |ps| && (k == 0 ==> ps == [])
    requires multiset(order) == multiset(ps)
    requires |vs| == |ps| && Uniform(vs, dim)
    requires forall u :: 0 <= u < |ps| ==> ps[u].features[..] == vs[u]
    ensures |order| == |ps| && Distinct(order)
    ensures forall c :: 0 <= c < |order| ==> order[c] in ps
    ensures |seeds| == k && WellFormed(seeds, dim)
    ensures forall c :: 0 <= c < k ==> seeds[c] == At(order[c].features[..])
    ensures |clusters| == k
    ensures 1 <= nIters && (nIters == 1 || nIters <= maxIters + 1)
    ensures forall c :: 0 <= c < k ==>
      Shows(clusters[c], Iterate(seeds, vs, dim, nIters)[c])
      && clusters[c].members == Groups(ps, Assignment(Iterate(seeds, vs, dim, nIters - 1), vs, dim), k)[c]
    ensures forall m :: 1 <= m < nIters ==> Moved(Change(seeds, vs, dim, m), threshold) && m <= maxIters
    ensures !(Moved(Change(seeds, vs, dim, nIters), threshold) && nIters <= maxIters)
    ensures forall c :: 0 <= c < |clusters| ==> fresh(clusters[c]) && fresh(clusters[c].centroid.features)
  {
    Shuffled(order, ps, dim);
    var seeded;
    seeded, seeds := Seed(order, k);
    clusters, nIters := Run(ps, seeded, dim, threshold, maxIters, vs, seeds);
  }

  /** compute(points, k, threshold, maxIters, scaling), with the shuffle's
      outcome given as `order`. With a scaling array the points' features
      are scaled in place first; the k seeds are copies of the first k
      points of the order, which are k distinct members; the result holds
      the model's centroids after nIters passes and the members of the last
      pass, and nIters is where the do-while test first failed. */
  method Compute(points: PointSet, k: nat, threshold: real, maxIters: int,
                 scaling: Option<array<real>>, order: seq<Point>)
    returns (clusters: seq<Cluster>, nIters: nat,
             ghost n: nat, ghost vs: seq<seq<real>>, ghost seeds: seq<Centroid>)
    requires points.Valid() && OwnArrays(points.elems)
    requires maxIters < INT_MAX
    requires k <= points.Size() && (k == 0 ==> points.Size() == 0)
    requires multiset(order) == multiset(points.elems)
    requires scaling.Some? ==>
      points.dimension <= scaling.value.Length
      && forall u :: 0 <= u < |points.elems| ==> points.elems[u].features != scaling.value
    modifies set u | 0 <= u < |points.elems| :: points.elems[u].features
    ensures n == if points.dimension < 0 then 0 else points.dimension
    ensures |vs| == |points.elems| && Uniform(vs, n)
    ensures forall u :: 0 <= u < |vs| ==> points.elems[u].features[..] == vs[u]
    ensures forall u :: 0 <= u < |vs| ==>
      vs[u] == (if scaling.Some? then Scaled(old(points.elems[u].features[..]), scaling.value[..])
                else old(points.elems[u].features[..]))
    ensures |order| == |points.elems| && Distinct(order)
    ensures forall c :: 0 <= c < |order| ==> order[c] in points.elems
    ensures |seeds| == k && WellFormed(seeds, n)
    ensures forall c :: 0 <= c < k ==> seeds[c] == At(order[c].features[..])
    ensures |clusters| == k
    ensures 1 <= nIters && (nIters == 1 || nIters <= maxIters + 1)
    ensures forall c :: 0 <= c < k ==>
      Shows(clusters[c], Iterate(seeds, vs, n, nIters)[c])
      && clusters[c].members == Groups(points.elems, Assignment(Iterate(seeds, vs, n, nIters - 1), vs, n), k)[c]
    ensures forall m :: 1 <= m < nIters ==> Moved(Change(seeds, vs, n, m), threshold) && m <= maxIters
    ensures !(Moved(Change(seeds, vs, n, nIters), threshold) && nIters <= maxIters)
    ensures forall c :: 0 <= c < |clusters| ==> fresh(clusters[c]) && fresh(clusters[c].centroid.features)
  {
    var ps, dim;
    ps, dim, vs := Prepare(points, scaling);
    n := dim;
    clusters, nIters, seeds := Lloyd(ps, dim, k, threshold, maxIters, order, vs);
  }

  /** compute(points, k, threshold, maxIters): the same without scaling, so
      no point changes. */
  method ComputeUnscaled(points: PointSet, k: nat, threshold: real, maxIters: int, order: seq<Point>)
    returns (clusters: seq<Cluster>, nIters: nat,
             ghost n: nat, ghost vs: seq<seq<real>>, ghost seeds: seq<Centroid>)
    requires points.Valid() && OwnArrays(points.elems)
    requires maxIters < INT_MAX
    requires k <= points.Size() && (k == 0 ==> points.Size() == 0)
    requires multiset(order) == multiset(points.elems)
    modifies set u | 0 <= u < |points.elems| :: points.elems[u].features
    ensures n == if points.dimension < 0 then 0 else points.dimension
    ensures |vs| == |points.elems| && Uniform(vs, n)
    ensures forall u :: 0 <= u < |vs| ==>
      points.elems[u].features[..] == vs[u] == old(points.elems[u].features[..])
    ensures |order| == |points.elems|
    ensures |seeds| == k && WellFormed(seeds, n)
    ensures forall c :: 0 <= c < k ==> seeds[c] == At(order[c].features[..])
    ensures |clusters| == k
    ensures 1 <= nIters && (nIters == 1 || nIters <= maxIters + 1)
    ensures forall c :: 0 <= c < k ==>
      Shows(clusters[c], Iterate(seeds, vs, n, nIters)[c])
      && clusters[c].members == Groups(points.elems, Assignment(Iterate(seeds, vs, n, nIters - 1), vs, n), k)[c]
    ensures forall m :: 1 <= m < nIters ==> Moved(Change(seeds, vs, n, m), threshold) && m <= maxIters
    ensures !(Moved(Change(seeds, vs, n, nIters), threshold) && nIters <= maxIters)
    ensures forall c :: 0 <= c < |clusters| ==> fresh(clusters[c]) && fresh(clusters[c].centroid.features)
  {
    clusters, nIters, n, vs, seeds := Compute(points, k, threshold, maxIters, None, order);
  }

  /** The first loop of computeScaling for one point: every factor rises to
      the point's feature where that is strictly larger. */
  method RaiseTo(scaling: array<real>, p: Point)
    requires p.features != scaling && scaling.Length == p.features.Length
    modifies scaling
    ensures forall i :: 0 <= i < scaling.Length ==>
      scaling[i] == if p.features[i] > old(scaling[i]) then p.features[i] else old(scaling[i])
  {
    for i := 0 to scaling.Length
      invariant forall j :: 0 <= j < i ==>
        scaling[j] == if p.features[j] > old(scaling[j]) then p.features[j] else old(scaling[j])
      invariant forall j :: i <= j < scaling.Length ==> scaling[j] == old(scaling[j])
    {
      if p.Feature(i).value > scaling[i] {
        scaling[i] := p.Feature(i).value;
      }
    }
  }

  /** Some point has a positive feature i. */
  ghost predicate SomePositive(ps: seq<Point>, i: nat)
    reads set p | p in ps :: p.features
  {
    exists u :: 0 <= u < |ps| && i < ps[u].features.Length && ps[u].features[i] > 0.0
  }

  /** computeScaling: factor i is 1 over the largest feature i of the set
      (the scan starts from 0). The largest must be positive for the factor
      to exist, so some point must have a positive feature i. */
  method ComputeScaling(points: PointSet) returns (scaling: array<real>)
    requires points.Valid() && points.Size() > 0
    requires forall i :: 0 <= i < points.dimension ==> SomePositive(points.elems, i)
    ensures fresh(scaling) && scaling.Length == points.dimension
    ensures forall i :: 0 <= i < scaling.Length ==>
      RunMax(0.0, Column(Values(points.elems), i)) > 0.0
      && scaling[i] == 1.0 / RunMax(0.0, Column(Values(points.elems), i))
  {
    var n := points.Dimension();
    ghost var vs := Values(points.elems);
    scaling := Peaks(points.elems, n, vs);
    forall i | 0 <= i < n ensures scaling[i] > 0.0 {
      PeakPositive(points.elems, vs, i);
    }
    Invert(scaling);
  }

  /** The first loop of computeScaling: factor i ends as the largest feature
      i of the points, the scan starting from 0. */
  method Peaks(ps: seq<Point>, n: nat, ghost vs: seq<seq<real>>) returns (scaling: array<real>)
    requires AllLength(ps, n) && |vs| == |ps|
    requires forall u :: 0 <= u < |ps| ==> ps[u].features[..] == vs[u]
    ensures fresh(scaling) && scaling.Length == n
    ensures forall i :: 0 <= i < n ==> scaling[i] == RunMax(0.0, Column(vs, i))
  {
    scaling := new real[n](_ => 0.0);
    for t := 0 to |ps|
      invariant forall i :: 0 <= i < n ==> scaling[i] == RunMax(0.0, Column(vs[..t], i))
    {
      RaiseTo(scaling, ps[t]);
      forall i | 0 <= i < n
        ensures RunMax(0.0, Column(vs[..t + 1], i))
          == if vs[t][i] > RunMax(0.0, Column(vs[..t], i)) then vs[t][i] else RunMax(0.0, Column(vs[..t], i))
      {
        ColumnPrefixStep(vs, t, i);
        RunMaxSnoc(0.0, Column(vs[..t], i), vs[t][i]);
      }
    }
    assert vs[..|ps|] == vs;
  }

  /** A peak over points one of which has a positive feature i is positive. */
  lemma PeakPositive(ps: seq<Point>, vs: seq<seq<real>>, i: nat)
    requires |vs| == |ps| && forall u :: 0 <= u < |ps| ==> ps[u].features[..] == vs[u]
    requires SomePositive(ps, i) && forall u :: 0 <= u < |vs| ==> i < |vs[u]|
    ensures RunMax(0.0, Column(vs, i)) > 0.0
  {
    RunMaxIsMaximum(0.0, Column(vs, i));
    var u :| 0 <= u < |ps| && i < ps[u].features.Length && ps[u].features[i] > 0.0;
    assert Column(vs, i)[u] == vs[u][i] == ps[u].features[i];
  }

  /** The second loop of computeScaling: every factor becomes its reciprocal. */
  method Invert(scaling: array<real>)
    requires forall i :: 0 <= i < scaling.Length ==> scaling[i] != 0.0
    modifies scaling
    ensures forall i :: 0 <= i < scaling.Length ==> scaling[i] == 1.0 / old(scaling[i])
  {
    for i := 0 to scaling.Length
      invariant forall j :: 0 <= j < i ==> scaling[j] == 1.0 / old(scaling[j])
      invariant forall j :: i <= j < scaling.Length ==> scaling[j] == old(scaling[j])
    {
      scaling[i] := 1.0 / scaling[i];
    }
  }
}
