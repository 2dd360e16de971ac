/**
 The key of a column (class `corner`): the minimum (x, y) of an element's
 footprint, compared through the tolerance scalar, ordered by y first and
 then by x.
 */
module Corners {
  import opened Tolerance

  datatype Corner = Corner(x: Dbl, y: Dbl) {

    /** `operator==`: both coordinates within the threshold. */
    predicate Eq(rhs: Corner)
      ensures Eq(rhs) <==> Abs(x.x - rhs.x.x) <= THRESH && Abs(y.x - rhs.y.x) <= THRESH
    {
      x.Eq(rhs.x) && y.Eq(rhs.y)
    }

    /** `operator<`: y decides unless the y values are equal up to the threshold, then x decides. */
    predicate Less(rhs: Corner)
      ensures Less(rhs) <==>
                (y.x + THRESH < rhs.y.x) ||
                (Abs(y.x - rhs.y.x) <= THRESH && x.x + THRESH < rhs.x.x)
    {
      if y.Less(rhs.y) then true
      else if y.Eq(rhs.y) && x.Less(rhs.x) then true
      else false
    }
  }

  /** Two keys the ordered map cannot tell apart. */
  predicate Equivalent(a: Corner, b: Corner)
  {
    !a.Less(b) && !b.Less(a)
  }

  /** The map treats two corners as the same key exactly when `==` holds. */
  lemma EquivalentIffEq(a: Corner, b: Corner)
    ensures Equivalent(a, b) <==> a.Eq(b)
  {
    Tolerance.IncomparableIffEq(a.y, b.y);
    Tolerance.IncomparableIffEq(a.x, b.x);
  }

  lemma LessIrreflexive(a: Corner)
    ensures !a.Less(a)
  {
  }

  lemma LessAsymmetric(a: Corner, b: Corner)
    requires a.Less(b)
    ensures !b.Less(a)
  {
  }

  lemma EqSymmetric(a: Corner, b: Corner)
    ensures a.Eq(b) <==> b.Eq(a)
  {
  }

  /** Key equivalence inherits the drift of `dbl`: it is not transitive. */
  lemma EquivalentNotTransitive()
    ensures exists a: Corner, b: Corner, c: Corner ::
      Equivalent(a, b) && Equivalent(b, c) && !Equivalent(a, c)
  {
    var a := Corner(Dbl(0.0), Dbl(0.0));
    var b := Corner(Dbl(THRESH), Dbl(0.0));
    var c := Corner(Dbl(2.0 * THRESH), Dbl(0.0));
    assert Equivalent(a, b) && Equivalent(b, c) && a.Less(c);
  }

  /**
   `operator<` on corners is not even transitive: y decides only beyond the
   threshold, so three corners can be ordered in a cycle. An ordered map given
   this comparator has no defined behaviour.
   */
  lemma LessNotTransitive()
    ensures exists a: Corner, b: Corner, c: Corner ::
      a.Less(b) && b.Less(c) && c.Less(a)
  {
    var a := Corner(Dbl(5.0), Dbl(0.0));
    var b := Corner(Dbl(0.0), Dbl(1.5 * THRESH));
    var c := Corner(Dbl(1.0), Dbl(0.9 * THRESH));
    assert a.Less(b) && b.Less(c) && c.Less(a);
  }
}
