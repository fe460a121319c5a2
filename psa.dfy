/** PSA: partitions a point set into m groups by repeatedly splitting the
    group whose widest feature is widest, at the middle of that feature's range. */
module PSA {
  import opened Common
  import opened Seqs
  import opened Points
  import opened PointSets

  /** a[j] after the scan over the members: MAX_VALUE, lowered to every
      strictly smaller value met in order. */
  function Lo(col: seq<real>): real {
    if col == [] then MAX_VALUE
    else
      var m := Lo(col[..|col| - 1]);
      if col[|col| - 1] < m then col[|col| - 1] else m
  }

  /** For values a double can hold, the scan from MAX_VALUE finds the
      minimum: a member's value that no member's value is below. */
  lemma {:induction false} LoIsMinimum(col: seq<real>)
    requires |col| > 0
    requires forall i :: 0 <= i < |col| ==> col[i] <= MAX_VALUE
    ensures forall i :: 0 <= i < |col| ==> Lo(col) <= col[i]
    ensures exists i :: 0 <= i < |col| && Lo(col) == col[i]
    decreases |col|
  {
    var n := |col| - 1;
    if n == 0 {
      assert Lo(col) == col[0];
    } else {
      var pre := col[..n];
      LoIsMinimum(pre);
      var k :| 0 <= k < n && Lo(pre) == pre[k];
      assert Lo(col) == if col[n] < Lo(pre) then col[n] else col[k];
    }
  }

  /** a[j] = Lo of column j for every feature j < n. */
  function Lows(vs: seq<seq<real>>, n: nat): (ls: seq<real>)
    requires forall i :: 0 <= i < |vs| ==> n <= |vs[i]|
    ensures |ls| == n
  {
    seq(n, j requires 0 <= j < n => Lo(Column(vs, j)))
  }

  /** delta[j] = b[j] - a[j] for every feature j < n. */
  function Deltas(vs: seq<seq<real>>, n: nat): (ds: seq<real>)
    requires forall i :: 0 <= i < |vs| ==> n <= |vs[i]|
    ensures |ds| == n
  {
    seq(n, j requires 0 <= j < n => RunMax(MIN_VALUE, Column(vs, j)) - Lo(Column(vs, j)))
  }

  lemma {:induction false} DeltasAt(vs: seq<seq<real>>, n: nat, j: nat)
    requires forall i :: 0 <= i < |vs| ==> n <= |vs[i]|
    requires j < n
    ensures Deltas(vs, n)[j] == RunMax(MIN_VALUE, Column(vs, j)) - Lo(Column(vs, j))
    decreases n
  {
    if j < n - 1 {
      DeltasAt(vs, n - 1, j);
    }
  }

  /** The index a left-to-right scan with a strict `>` settles on: a maximal
      entry, and every earlier entry is strictly smaller, so ties go to the
      lowest index. */
  function ArgMax(ds: seq<real>): (j: nat)
    requires |ds| > 0
    ensures j < |ds|
  {
    if |ds| == 1 then 0
    else
      var j := ArgMax(ds[..|ds| - 1]);
      if ds[|ds| - 1] > ds[j] then |ds| - 1 else j
  }

  /** ArgMax picks a largest entry, and every entry before it is strictly
      smaller: ties go to the lowest index. */
  lemma {:induction false} ArgMaxIsFirstMax(ds: seq<real>)
    requires |ds| > 0
    ensures forall i :: 0 <= i < |ds| ==> ds[i] <= ds[ArgMax(ds)]
    ensures forall i :: 0 <= i < ArgMax(ds) ==> ds[i] < ds[ArgMax(ds)]
    decreases |ds|
  {
    if |ds| > 1 {
      ArgMaxIsFirstMax(ds[..|ds| - 1]);
    }
  }

  /** The feature vectors of ps as recorded in f. */
  function Lookup(f: map<Point, seq<real>>, ps: seq<Point>): (vs: seq<seq<real>>)
    requires forall p :: p in ps ==> p in f
    ensures |vs| == |ps|
    ensures forall i :: 0 <= i < |ps| ==> vs[i] == f[ps[i]]
  {
    seq(|ps|, i requires 0 <= i < |ps| => f[ps[i]])
  }

  /** pj is the widest of the n features of vs (the first of the largest
      ranges), apj the low end of its range and dis its width. */
  ghost predicate Summarises(vs: seq<seq<real>>, n: nat, pj: int, apj: real, dis: real) {
    n >= 1 && (forall i :: 0 <= i < |vs| ==> |vs[i]| == n)
    && var ds := Deltas(vs, n);
       pj == ArgMax(ds) && apj == Lows(vs, n)[pj] && dis == ds[pj]
  }

  /** What the cached values mean: pj is a feature, dis is the width of its
      range and no feature is wider, every earlier feature is strictly
      narrower, and apj is the lowest value of feature pj (for values a
      double can hold). */
  lemma {:induction false} SummarisesWidest(vs: seq<seq<real>>, n: nat, pj: int, apj: real, dis: real)
    requires Summarises(vs, n, pj, apj, dis)
    ensures 0 <= pj < n && dis == RunMax(MIN_VALUE, Column(vs, pj)) - Lo(Column(vs, pj))
    ensures forall j :: 0 <= j < n ==> RunMax(MIN_VALUE, Column(vs, j)) - Lo(Column(vs, j)) <= dis
    ensures forall j :: 0 <= j < pj ==> RunMax(MIN_VALUE, Column(vs, j)) - Lo(Column(vs, j)) < dis
    ensures apj == Lo(Column(vs, pj))
    ensures |vs| > 0 && (forall i :: 0 <= i < |vs| ==> vs[i][pj] <= MAX_VALUE) ==>
      (forall i :: 0 <= i < |vs| ==> apj <= vs[i][pj])
      && exists i :: 0 <= i < |vs| && apj == vs[i][pj]
  {
    var ds := Deltas(vs, n);
    ArgMaxIsFirstMax(ds);
    forall j | 0 <= j < n
      ensures ds[j] == RunMax(MIN_VALUE, Column(vs, j)) - Lo(Column(vs, j))
    {
      DeltasAt(vs, n, j);
    }
    var col := Column(vs, pj);
    forall i | 0 <= i < |vs|
      ensures col[i] == vs[i][pj]
    {
      ColumnAt(vs, pj, i);
    }
    if |vs| > 0 && (forall i :: 0 <= i < |vs| ==> vs[i][pj] <= MAX_VALUE) {
      LoIsMinimum(col);
    }
  }

  lemma {:induction false} ColumnAt(vs: seq<seq<real>>, j: nat, i: nat)
    requires forall k :: 0 <= k < |vs| ==> j < |vs[k]|
    requires i < |vs|
    ensures Column(vs, j)[i] == vs[i][j]
    decreases |vs|
  {
    if i < |vs| - 1 {
      ColumnAt(vs[..|vs| - 1], j, i);
    }
  }

  /** Every point of ms is recorded in f, and (pj, apj, dis) summarise
      their recorded features. */
  ghost predicate Caches(f: map<Point, seq<real>>, n: nat, ms: seq<Point>, pj: int, apj: real, dis: real) {
    (forall p :: p in ms ==> p in f) && Summarises(Lookup(f, ms), n, pj, apj, dis)
  }

  /** A partition: its members and the three values cached from them. */
  class Partition {
    var members: seq<Point>
    var pj: int
    var apj: real
    var dissimilarity: real

    constructor ()
      ensures members == [] && pj == 0 && apj == 0.0 && dissimilarity == 0.0
    {
      members := [];
      pj, apj, dissimilarity := 0, 0.0, 0.0;
    }

    method Add(p: Point)
      modifies this`members
      ensures members == old(members) + [p]
    {
      members := members + [p];
    }

    /** pj, apj and dissimilarity are what calculateDissimilarity computes
        from the members' n features, as recorded in f. */
    ghost predicate Cached(f: map<Point, seq<real>>, n: nat)
      reads this
    {
      Caches(f, n, members, pj, apj, dissimilarity)
    }
  }

  /** The features every point of ps has now. */
  ghost function Snapshot(ps: seq<Point>): (f: map<Point, seq<real>>)
    reads set p | p in ps :: p.features
    ensures forall p :: p in ps ==> p in f
    ensures forall p :: p in f ==> p in ps && f[p] == p.features[..]
  {
    map p | p in ps :: p.features[..]
  }

  /** The inner scan of calculateDissimilarity for feature j: a[j] starts at
      MAX_VALUE and b[j] at MIN_VALUE, and each member's feature j lowers
      the one or raises the other when strictly beyond it. */
  method ScanFeature(ms: seq<Point>, j: nat, ghost f: map<Point, seq<real>>) returns (lo: real, hi: real)
    requires forall p :: p in ms ==> p in f && f[p] == p.features[..] && j < |f[p]|
    ensures lo == Lo(Column(Lookup(f, ms), j)) && hi == RunMax(MIN_VALUE, Column(Lookup(f, ms), j))
  {
    lo, hi := MAX_VALUE, MIN_VALUE;
    for t := 0 to |ms|
      invariant lo == Lo(Column(Lookup(f, ms[..t]), j)) && hi == RunMax(MIN_VALUE, Column(Lookup(f, ms[..t]), j))
    {
      ghost var before := Lookup(f, ms[..t]);
      assert ms[..t + 1][..t] == ms[..t];
      ghost var after := Lookup(f, ms[..t + 1]);
      assert after == before + [f[ms[t]]];
      assert after[..t] == before;
      var x := ms[t].Feature(j).value;
      assert Column(after, j) == Column(before, j) + [x];
      if x < lo {
        lo := x;
      }
      if x > hi {
        hi := x;
      }
    }
    assert ms[..|ms|] == ms;
  }

  /** The first loop of calculateDissimilarity: for every feature j, the
      scans a[j] and b[j] and delta[j] = b[j] - a[j]. */
  method Ranges(ms: seq<Point>, n: nat, ghost f: map<Point, seq<real>>)
    returns (a: array<real>, delta: array<real>)
    requires forall p :: p in ms ==> p in f && f[p] == p.features[..] && |f[p]| == n
    ensures fresh(a) && fresh(delta)
    ensures a[..] == Lows(Lookup(f, ms), n)
    ensures delta[..] == Deltas(Lookup(f, ms), n)
  {
    ghost var vs := Lookup(f, ms);
    a := new real[n];
    var b := new real[n];
    delta := new real[n];
    for j := 0 to n
      invariant a[..j] == Lows(vs, j)
      invariant delta[..j] == Deltas(vs, j)
    {
      a[j], b[j] := ScanFeature(ms, j, f);
      delta[j] := b[j] - a[j];
      RangesSnoc(vs, j);
      assert a[..j + 1] == a[..j] + [a[j]];
      assert delta[..j + 1] == delta[..j] + [delta[j]];
    }
    assert a[..n] == a[..];
    assert delta[..n] == delta[..];
  }

  /** One more feature column extends both a and delta by its entry. */
  lemma {:induction false} RangesSnoc(vs: seq<seq<real>>, j: nat)
    requires forall i :: 0 <= i < |vs| ==> j < |vs[i]|
    ensures Lows(vs, j + 1) == Lows(vs, j) + [Lo(Column(vs, j))]
    ensures Deltas(vs, j + 1) == Deltas(vs, j) + [RunMax(MIN_VALUE, Column(vs, j)) - Lo(Column(vs, j))]
  {
    assert Lows(vs, j + 1) == Lows(vs, j) + [Lo(Column(vs, j))];
  }

  /** The second loop of calculateDissimilarity: the first index of the
      largest delta. */
  method Widest(delta: array<real>) returns (pj: nat)
    requires delta.Length > 0
    ensures pj == ArgMax(delta[..])
  {
    pj := 0;
    for j := 1 to delta.Length
      invariant pj == ArgMax(delta[..j])
    {
      assert delta[..j + 1][..j] == delta[..j];
      if delta[j] > delta[pj] {
        pj := j;
      }
    }
    assert delta[..delta.Length] == delta[..];
  }

  /** calculateDissimilarity: pj becomes the widest feature (the first of
      the largest delta), apj its low end a[pj] and dissimilarity its width
      delta[pj]; nothing else changes. */
  method CalculateDissimilarity(data: Partition, nFeatures: int, ghost f: map<Point, seq<real>>)
    requires nFeatures >= 1
    requires forall p :: p in data.members ==> p in f && f[p] == p.features[..] && |f[p]| == nFeatures
    modifies data`pj, data`apj, data`dissimilarity
    ensures data.Cached(f, nFeatures)
  {
    var a, delta := Ranges(data.members, nFeatures, f);
    var pj := Widest(delta);
    data.apj := a[pj];
    data.pj := pj;
    data.dissimilarity := delta[pj];
  }

  /** The selection loop: the first partition with the largest dissimilarity. */
  method SelectWidest(s: seq<Partition>) returns (j: nat)
    requires |s| > 0
    ensures j < |s|
    ensures forall i :: 0 <= i < |s| ==> s[i].dissimilarity <= s[j].dissimilarity
    ensures forall i :: 0 <= i < j ==> s[i].dissimilarity < s[j].dissimilarity
  {
    j := 0;
    for k := 1 to |s|
      invariant j < k
      invariant forall i :: 0 <= i < k ==> s[i].dissimilarity <= s[j].dissimilarity
      invariant forall i :: 0 <= i < j ==> s[i].dissimilarity < s[j].dissimilarity
    {
      if s[k].dissimilarity > s[j].dissimilarity {
        j := k;
      }
    }
  }

  /** The split loop: a member goes to the first child when its feature pj
      is at most apj + dissimilarity / 2, otherwise to the second; together
      the children hold exactly the parent's members. */
  method Split(aj: Partition) returns (aj1: Partition, aj2: Partition)
    requires 0 <= aj.pj && forall p :: p in aj.members ==> aj.pj < p.features.Length
    ensures fresh(aj1) && fresh(aj2) && aj1 != aj2
    ensures multiset(aj1.members) + multiset(aj2.members) == multiset(aj.members)
    ensures forall p :: p in aj1.members ==>
      p in aj.members && p.features[aj.pj] <= aj.apj + aj.dissimilarity / 2.0
    ensures forall p :: p in aj2.members ==>
      p in aj.members && p.features[aj.pj] > aj.apj + aj.dissimilarity / 2.0
  {
    aj1 := new Partition();
    aj2 := new Partition();
    var bound := aj.apj + aj.dissimilarity / 2.0;
    for t := 0 to |aj.members|
      invariant multiset(aj1.members) + multiset(aj2.members) == multiset(aj.members[..t])
      invariant forall p :: p in aj1.members ==> p in aj.members && p.features[aj.pj] <= bound
      invariant forall p :: p in aj2.members ==> p in aj.members && p.features[aj.pj] > bound
    {
      var p := aj.members[t];
      assert aj.members[..t + 1] == aj.members[..t] + [p];
      if p.Feature(aj.pj).value <= bound {
        aj1.Add(p);
      } else {
        aj2.Add(p);
      }
    }
    assert aj.members[..|aj.members|] == aj.members;
  }

  /** The body of partition's loop once the widest partition aj is chosen:
      split it and compute both children's cached values. */
  method SplitMeasured(aj: Partition, nFeatures: int, ghost f: map<Point, seq<real>>)
    returns (aj1: Partition, aj2: Partition)
    requires nFeatures >= 1 && aj.Cached(f, nFeatures)
    requires forall p :: p in f ==> f[p] == p.features[..]
    ensures fresh(aj1) && fresh(aj2) && aj1 != aj2
    ensures aj1.Cached(f, nFeatures) && aj2.Cached(f, nFeatures)
    ensures SplitsAt(f, aj, aj1, aj2)
  {
    assert 0 <= aj.pj < nFeatures;
    assert forall p :: p in aj.members ==> aj.pj < p.features.Length;
    aj1, aj2 := Split(aj);
    assert SplitsAt(f, aj, aj1, aj2);
    CalculateDissimilarity(aj1, nFeatures, f);
    CalculateDissimilarity(aj2, nFeatures, f);
  }

  /** After the widest partition j is replaced by two children at the end,
      every partition is an old one or a child, and the member sequences are
      the old ones without j's, followed by the children's. */
  lemma {:induction false} ReplacedMembers(s: seq<Partition>, j: nat, s': seq<Partition>, g: seq<seq<Point>>)
    requires j < |s| && |s'| == |s| + 1 && s'[..|s| - 1] == s[..j] + s[j + 1..]
    requires |g| == |s| && forall l :: 0 <= l < |s| ==> s[l].members == g[l]
    ensures forall a :: a in s' ==> a in s || a == s'[|s| - 1] || a == s'[|s|]
    ensures forall l :: 0 <= l < |s'| ==>
      s'[l].members == (g[..j] + g[j + 1..] + [s'[|s| - 1].members, s'[|s|].members])[l]
  {
    forall a | a in s'
      ensures a in s || a == s'[|s| - 1] || a == s'[|s|]
    {
      if a != s'[|s| - 1] && a != s'[|s|] {
        assert a in s'[..|s| - 1];
      }
    }
    forall l | 0 <= l < |s'|
      ensures s'[l].members == (g[..j] + g[j + 1..] + [s'[|s| - 1].members, s'[|s|].members])[l]
    {
      if l < |s| - 1 {
        assert s'[l] == s[if l < j then l else l + 1];
      }
    }
  }

  /** b1 and b2 split a at the middle of its widest feature: together they
      hold a's members, b1 those whose recorded feature a.pj is at most
      a.apj + a.dissimilarity / 2, b2 the others. */
  ghost predicate SplitsAt(f: map<Point, seq<real>>, a: Partition, b1: Partition, b2: Partition)
    reads a, b1, b2
  {
    multiset(b1.members) + multiset(b2.members) == multiset(a.members)
    && (forall p :: p in b1.members ==>
          p in f && 0 <= a.pj < |f[p]| && f[p][a.pj] <= a.apj + a.dissimilarity / 2.0)
    && (forall p :: p in b2.members ==>
          p in f && 0 <= a.pj < |f[p]| && f[p][a.pj] > a.apj + a.dissimilarity / 2.0)
  }

  /** s' is s after one pass of partition's loop that picked j: s[j] is the
      first partition of largest dissimilarity, it was measured from its
      members, and it is replaced by two new partitions, appended at the
      end, that split it at its midpoint. */
  ghost predicate Widens(f: map<Point, seq<real>>, n: nat, s: seq<Partition>, j: nat, s': seq<Partition>)
    reads set a | a in s, set a | a in s'
  {
    j < |s| && |s'| == |s| + 1
    && (forall i :: 0 <= i < |s| ==> s[i].dissimilarity <= s[j].dissimilarity)
    && (forall i :: 0 <= i < j ==> s[i].dissimilarity < s[j].dissimilarity)
    && s[j].Cached(f, n)
    && s'[..|s| - 1] == s[..j] + s[j + 1..]
    && s'[|s| - 1] !in s && s'[|s|] !in s
    && SplitsAt(f, s[j], s'[|s| - 1], s'[|s|])
  }

  /** One pass of partition's loop: choose the widest partition, split it,
      measure both children, and replace it in the list by the two children
      at the end (S.remove(Aj); S.add(Aj1); S.add(Aj2)). g and g' are the
      member sequences before and after. */
  method SplitStep(s: seq<Partition>, nFeatures: int, ghost f: map<Point, seq<real>>, ghost g: seq<seq<Point>>)
    returns (s': seq<Partition>, j: nat, ghost g': seq<seq<Point>>)
    requires nFeatures >= 1 && |s| >= 1 && Distinct(s)
    requires forall a :: a in s ==> a.Cached(f, nFeatures)
    requires forall p :: p in f ==> f[p] == p.features[..]
    requires |g| == |s| && forall l :: 0 <= l < |s| ==> s[l].members == g[l]
    ensures Widens(f, nFeatures, s, j, s')
    ensures |s'| == |s| + 1 && Distinct(s')
    ensures fresh(s'[|s| - 1]) && fresh(s'[|s|])
    ensures forall a :: a in s' ==> (a in s || fresh(a)) && a.Cached(f, nFeatures)
    ensures |g'| == |s'| && forall l :: 0 <= l < |s'| ==> s'[l].members == g'[l]
    ensures multiset(Concat(g')) == multiset(Concat(g))
  {
    j := SelectWidest(s);
    var aj := s[j];
    assert aj in s;
    var aj1, aj2 := SplitMeasured(aj, nFeatures, f);
    assert forall a :: a in s ==> a.Cached(f, nFeatures);
    RemoveFirstAt(s, j);
    s' := RemoveFirst(s, aj) + [aj1, aj2];
    ReplacedMembers(s, j, s', g);
    assert s'[|s| - 1] == aj1 && s'[|s|] == aj2;
    forall b | b in s'
      ensures (b in s || fresh(b)) && b.Cached(f, nFeatures)
    {
      if b != aj1 && b != aj2 {
        assert b in s;
      }
    }
    DistinctReplace(s, j, aj1, aj2);
    ConcatReplace(g, j, aj1.members, aj2.members);
    g' := g[..j] + g[j + 1..] + [aj1.members, aj2.members];
    assert s'[..|s| - 1] == s[..j] + s[j + 1..];
  }

  /** The lists of partition's loop, one per pass: the first is the single
      partition of every point, and each next one is the one before, widened
      at picks[l]. */
  ghost predicate Chain(f: map<Point, seq<real>>, n: nat, hist: seq<seq<Partition>>, picks: seq<nat>)
    reads set l, a | 0 <= l < |hist| && a in hist[l] :: a
  {
    |hist| == |picks| + 1
    && forall l :: 0 <= l < |picks| ==> Widens(f, n, hist[l], picks[l], hist[l + 1])
  }

  /** The state of partition's loop: s is the list of partitions, each
      measured, none twice; g their member lists, which hold the points
      exactly once; hist the lists so far, from [a] to s. */
  ghost predicate Partitioned(f: map<Point, seq<real>>, n: nat, elems: seq<Point>, a: Partition,
                              s: seq<Partition>, g: seq<seq<Point>>,
                              hist: seq<seq<Partition>>, picks: seq<nat>)
    reads a, set b | b in s, set l, b | 0 <= l < |hist| && b in hist[l] :: b
  {
    |s| >= 1 && Distinct(s)
    && (forall b :: b in s ==> b.Cached(f, n))
    && |g| == |s| && (forall l :: 0 <= l < |s| ==> s[l].members == g[l])
    && multiset(Concat(g)) == multiset(elems)
    && |hist| == |s| && |hist[0]| == 1 && hist[0][0] == a && hist[|hist| - 1] == s
    && a.members == elems && a.Cached(f, n)
    && Chain(f, n, hist, picks)
  }

  /** The body of partition's loop: one more pass, recorded in the history. */
  method Widen(s: seq<Partition>, nFeatures: int, ghost f: map<Point, seq<real>>, ghost elems: seq<Point>,
               ghost a: Partition, ghost g: seq<seq<Point>>, ghost hist: seq<seq<Partition>>, ghost picks: seq<nat>)
    returns (s': seq<Partition>, ghost g': seq<seq<Point>>, ghost hist': seq<seq<Partition>>, ghost picks': seq<nat>)
    requires nFeatures >= 1 && forall p :: p in f ==> f[p] == p.features[..]
    requires Partitioned(f, nFeatures, elems, a, s, g, hist, picks)
    ensures Partitioned(f, nFeatures, elems, a, s', g', hist', picks')
    ensures |s'| == |s| + 1 && forall b :: b in s' ==> b in s || fresh(b)
  {
    var j;
    s', j, g' := SplitStep(s, nFeatures, f, g);
    ChainSnoc(f, nFeatures, hist, picks, j, s');
    hist', picks' := hist + [s'], picks + [j];
  }

  /** A further pass extends the chain of lists. */
  lemma ChainSnoc(f: map<Point, seq<real>>, n: nat, hist: seq<seq<Partition>>, picks: seq<nat>,
                  j: nat, s': seq<Partition>)
    requires Chain(f, n, hist, picks) && Widens(f, n, hist[|hist| - 1], j, s')
    ensures Chain(f, n, hist + [s'], picks + [j])
  {
    var h', p' := hist + [s'], picks + [j];
    forall l | 0 <= l < |p'| ensures Widens(f, n, h'[l], p'[l], h'[l + 1]) {
      if l < |picks| {
        assert h'[l] == hist[l] && h'[l + 1] == hist[l + 1] && p'[l] == picks[l];
      }
    }
  }

  /** The partition holding every point of the set, with its cached values. */
  method Gather(points: PointSet, nFeatures: int, ghost f: map<Point, seq<real>>) returns (a: Partition)
    requires points.Valid() && nFeatures >= 1 && AllLength(points.elems, nFeatures)
    requires forall p :: p in points.elems ==> p in f && f[p] == p.features[..]
    ensures fresh(a) && a.members == points.elems && a.Cached(f, nFeatures)
  {
    a := new Partition();
    for t := 0 to |points.elems|
      invariant a.members == points.elems[..t]
    {
      assert points.elems[..t + 1] == points.elems[..t] + [points.elems[t]];
      a.Add(points.elems[t]);
    }
    assert points.elems[..|points.elems|] == points.elems;
    CalculateDissimilarity(a, nFeatures, f);
  }

  /** partition(points, m): InsufficientPoints when m exceeds the number of
      points; otherwise max(m, 1) partitions that together hold every point
      exactly once, each with its values cached from its members' features f. */
  method PartitionPoints(points: PointSet, m: int)
    returns (r: Result<seq<Partition>>, ghost f: map<Point, seq<real>>, ghost groups: seq<seq<Point>>,
             ghost hist: seq<seq<Partition>>, ghost picks: seq<nat>)
    requires points.Valid()
    requires m > points.Size() || (points.Size() > 0 && points.dimension >= 1)
    ensures r.Err? <==> m > points.Size()
    ensures r.Err? ==> r.error == InsufficientPoints
    ensures forall p :: p in points.elems <==> p in f
    ensures forall p :: p in f ==> f[p] == p.features[..]
    ensures r.Ok? ==>
      |r.value| == (if m >= 1 then m else 1)
      && Distinct(r.value)
      && (forall a :: a in r.value ==> fresh(a) && a.Cached(f, points.dimension))
      && |groups| == |r.value| && (forall l :: 0 <= l < |r.value| ==> r.value[l].members == groups[l])
      && multiset(Concat(groups)) == multiset(points.elems)
    ensures r.Ok? ==>
      |hist| == |r.value| && |hist[0]| == 1
      && hist[0][0].members == points.elems && hist[0][0].Cached(f, points.dimension)
      && hist[|hist| - 1] == r.value
      && Chain(f, points.dimension, hist, picks)
  {
    f := Snapshot(points.elems);
    var nFeatures := points.Dimension();
    if m > points.Size() {
      return Err(InsufficientPoints), f, [], [], [];
    }
    var s;
    s, groups, hist, picks := Grow(points, m, nFeatures, f);
    return Ok(s), f, groups, hist, picks;
  }

  /** Before partition's loop: the list of the single partition of every
      point, measured. */
  method Start(points: PointSet, nFeatures: int, ghost f: map<Point, seq<real>>)
    returns (a: Partition, s: seq<Partition>, ghost g: seq<seq<Point>>,
             ghost hist: seq<seq<Partition>>, ghost picks: seq<nat>)
    requires points.Valid() && nFeatures >= 1 && AllLength(points.elems, nFeatures)
    requires forall p :: p in points.elems ==> p in f && f[p] == p.features[..]
    ensures fresh(a) && s == [a]
    ensures Partitioned(f, nFeatures, points.elems, a, s, g, hist, picks)
  {
    a := Gather(points, nFeatures, f);
    s := [a];
    g := [a.members];
    ConcatSingle(a.members);
    hist, picks := [s], [];
  }

  /** partition once m is known to be within the number of points: the
      single partition of every point, then m - 1 passes of the loop. */
  method Grow(points: PointSet, m: int, nFeatures: int, ghost f: map<Point, seq<real>>)
    returns (s: seq<Partition>, ghost g: seq<seq<Point>>, ghost hist: seq<seq<Partition>>, ghost picks: seq<nat>)
    requires points.Valid() && nFeatures >= 1 && AllLength(points.elems, nFeatures)
    requires forall p :: p in points.elems ==> p in f
    requires forall p :: p in f ==> f[p] == p.features[..]
    ensures |s| == (if m >= 1 then m else 1)
    ensures forall b :: b in s ==> fresh(b)
    ensures |hist| >= 1 && |hist[0]| == 1
    ensures Partitioned(f, nFeatures, points.elems, hist[0][0], s, g, hist, picks)
  {
    var a;
    a, s, g, hist, picks := Start(points, nFeatures, f);
    var i := 1;
    while i < m
      invariant |s| == i >= 1
      invariant i <= m || i == 1
      invariant forall p :: p in f ==> f[p] == p.features[..]
      invariant forall b :: b in s ==> fresh(b)
      invariant Partitioned(f, nFeatures, points.elems, a, s, g, hist, picks)
      decreases m - i
    {
      s, g, hist, picks := Widen(s, nFeatures, f, points.elems, a, g, hist, picks);
      i := i + 1;
    }
  }
}
