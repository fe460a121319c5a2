/** A set of points that all have the same number of features. The set is a
    HashSet of Point, and Point defines no equals or hashCode, so membership is
    by object identity: two distinct points with equal features are two members. */
module PointSets {
  import opened Common
  import opened Seqs
  import opened Points

  class PointSet {
    /** The members, in the set's (arbitrary but fixed) iteration order. */
    var elems: seq<Point>
    /** -1 until the first add, then the length of the first point added. */
    var dimension: int

    /** The set's invariant, kept by the constructor and add: the dimension
        is -1 exactly while the set is empty, every member has `dimension`
        features, no member is there twice. */
    ghost predicate Valid()
      reads this
    {
      (dimension == -1 <==> elems == [])
      && AllLength(elems, dimension)
      && Distinct(elems)
    }

    /** A fresh set is empty and reports dimension -1. */
    constructor ()
      ensures Valid() && elems == [] && dimension == -1
    {
      elems := [];
      dimension := -1;
    }

    /** The number of members (HashSet.size()). */
    function Size(): (r: nat)
      reads this
      ensures r == |elems|
    {
      |elems|
    }

    /** dimension(): -1 for an empty set, otherwise the length every member has. */
    function Dimension(): (d: int)
      reads this
      requires Valid()
      ensures d == -1 <==> Size() == 0
      ensures d != -1 ==> d >= 0 && forall i :: 0 <= i < Size() ==> elems[i].Length() == d
    {
      assert dimension != -1 ==> elems[0].Length() == dimension;
      dimension
    }

    /** add(p): the first add fixes the dimension; a later point of another
        length is refused with DimensionMismatch and nothing changes; otherwise
        p joins the set unless that very object is already a member, and the
        answer says whether it joined. */
    method Add(p: Point) returns (r: Result<bool>)
      requires Valid()
      modifies this
      ensures Valid()
      ensures old(dimension) != -1 && p.Length() != old(dimension) ==>
                r == Err(DimensionMismatch) && elems == old(elems) && dimension == old(dimension)
      ensures old(dimension) == -1 || p.Length() == old(dimension) ==>
                r == Ok(p !in old(elems))
                && elems == (if p in old(elems) then old(elems) else old(elems) + [p])
                && dimension == p.Length()
    {
      if dimension == -1 {
        dimension := p.Length();
      } else if p.Length() != dimension {
        return Err(DimensionMismatch);
      }
      if p in elems {
        return Ok(false);
      }
      elems := elems + [p];
      return Ok(true);
    }
  }

  /** Adding the same point object twice keeps one member, while a second
      object with the very same features is kept beside it. */
  method IdentityMembership() returns (sizeAfterReAdd: nat, sizeAfterTwin: nat)
    ensures sizeAfterReAdd == 1 && sizeAfterTwin == 2
  {
    var data := new real[2](i => if i == 0 then 1.0 else 2.0);
    var s := new PointSet();
    var p := new Point(data);
    var q := new Point(data);
    var r := s.Add(p);
    r := s.Add(p);
    assert r == Ok(false);
    sizeAfterReAdd := s.Size();
    r := s.Add(q);
    assert r == Ok(true);
    sizeAfterTwin := s.Size();
  }
}
