/** A point: a fixed-length vector of features, with bounds-checked access
    and the Euclidean distance to a point of the same length. */
module Points {
  import opened Common

  /** The sum over i of (a[i] - b[i])^2, accumulated from the left as the
      distance loop does: the square of the Euclidean distance. */
  function SqDist(a: seq<real>, b: seq<real>): real
    requires |a| == |b|
  {
    if |a| == 0 then 0.0
    else
      var n := |a| - 1;
      SqDist(a[..n], b[..n]) + (a[n] - b[n]) * (a[n] - b[n])
  }

  lemma {:induction false} SqDistNonNegative(a: seq<real>, b: seq<real>)
    requires |a| == |b|
    ensures SqDist(a, b) >= 0.0
    decreases |a|
  {
    if |a| > 0 {
      var n := |a| - 1;
      SqDistNonNegative(a[..n], b[..n]);
    }
  }

  lemma {:induction false} SqDistSymmetric(a: seq<real>, b: seq<real>)
    requires |a| == |b|
    ensures SqDist(a, b) == SqDist(b, a)
    decreases |a|
  {
    if |a| > 0 {
      var n := |a| - 1;
      SqDistSymmetric(a[..n], b[..n]);
    }
  }

  /** A point is at distance zero from itself. */
  lemma {:induction false} SqDistSelf(a: seq<real>)
    ensures SqDist(a, a) == 0.0
    decreases |a|
  {
    if |a| > 0 {
      SqDistSelf(a[..|a| - 1]);
    }
  }

  class Point {
    /** The feature array. The source never reassigns the field (only its
        cells, during scaling), so the length is fixed at construction. */
    const features: array<real>

    /** Point(int k): k features, all zero. */
    constructor Zero(k: nat)
      ensures fresh(features) && features.Length == k
      ensures forall i :: 0 <= i < k ==> features[i] == 0.0
    {
      features := new real[k](_ => 0.0);
    }

    /** Point(double... data): a fresh array holding a copy of data, so
        later writes to data do not reach the point. */
    constructor (data: array<real>)
      ensures fresh(features) && features[..] == data[..]
    {
      features := new real[data.Length];
      new;
      for i := 0 to data.Length
        invariant forall j :: 0 <= j < i ==> features[j] == data[j]
      {
        features[i] := data[i];
      }
    }

    /** Point(Point p): a fresh array holding p's features, so writes to
        either point's features do not reach the other. */
    constructor Copy(p: Point)
      ensures fresh(features) && features[..] == p.features[..]
    {
      features := new real[p.Length()];
      new;
      for i := 0 to p.Length()
        invariant forall j :: 0 <= j < i ==> features[j] == p.features[j]
      {
        features[i] := p.Feature(i).value;
      }
    }

    /** length(): the number of features, fixed at construction. */
    function Length(): (r: nat)
      ensures r == features.Length
    {
      features.Length
    }

    /** feature(i): the value at i inside [0, length), an error otherwise. */
    function Feature(i: int): (r: Result<real>)
      reads features
      ensures r.Ok? <==> 0 <= i < Length()
      ensures r.Ok? ==> r.value == features[i]
      ensures r.Err? ==> r.error == IndexOutOfRange
    {
      if 0 <= i < features.Length then Ok(features[i]) else Err(IndexOutOfRange)
    }

    /** distance(p), squared: DimensionMismatch for points of different
        lengths, otherwise the sum of squared feature differences (the
        source then takes Math.sqrt, which is monotone). */
    method Distance(p: Point) returns (r: Result<real>)
      ensures r.Err? <==> Length() != p.Length()
      ensures r.Err? ==> r.error == DimensionMismatch
      ensures r.Ok? ==> r.value == SqDist(features[..], p.features[..])
    {
      if Length() != p.Length() {
        return Err(DimensionMismatch);
      }
      var sum := 0.0;
      for i := 0 to Length()
        invariant sum == SqDist(features[..i], p.features[..i])
      {
        var d := Feature(i).value - p.Feature(i).value;
        sum := sum + d * d;
        assert features[..i + 1][..i] == features[..i];
        assert p.features[..i + 1][..i] == p.features[..i];
      }
      assert features[..Length()] == features[..];
      assert p.features[..Length()] == p.features[..];
      return Ok(sum);
    }
  }

  /** The feature vectors of a sequence of points. */
  ghost function Values(ps: seq<Point>): (vs: seq<seq<real>>)
    reads set p | p in ps :: p.features
    ensures |vs| == |ps|
    ensures forall i :: 0 <= i < |ps| ==> vs[i] == ps[i].features[..]
  {
    seq(|ps|, i requires 0 <= i < |ps| reads set p | p in ps :: p.features => ps[i].features[..])
  }

  /** Feature j of every vector, in order. */
  function Column(vs: seq<seq<real>>, j: nat): (col: seq<real>)
    requires forall i :: 0 <= i < |vs| ==> j < |vs[i]|
    ensures |col| == |vs|
  {
    seq(|vs|, i requires 0 <= i < |vs| => vs[i][j])
  }

  /** The column of one more vector gains that vector's entry. */
  lemma ColumnPrefixStep(vs: seq<seq<real>>, t: nat, j: nat)
    requires t < |vs| && forall i :: 0 <= i < |vs| ==> j < |vs[i]|
    ensures Column(vs[..t + 1], j) == Column(vs[..t], j) + [vs[t][j]]
  {
  }

  /** Every point has exactly n features. */
  predicate AllLength(ps: seq<Point>, n: int) {
    forall i :: 0 <= i < |ps| ==> ps[i].features.Length == n
  }

  /** No two points of ps share a feature array. Every constructor allocates
      a fresh one, so this holds of any points the source builds. */
  ghost predicate OwnArrays(ps: seq<Point>) {
    forall i, j :: 0 <= i < j < |ps| ==> ps[i].features != ps[j].features
  }
}
