/**
 The tolerance-compared scalar of the refinement driver (class `dbl`).

 Two values are "equal" when they lie within THRESH of each other, and one is
 "less" than the other only when they are not equal in that sense and it is
 numerically smaller. Doubles are modelled as reals; the tolerance is the
 program's single global threshold.
 */
module Tolerance {

  /** The global comparison threshold `thresh` (10e-12). */
  const THRESH: real := 0.00000000001

  function Abs(r: real): (a: real)
    ensures a >= 0.0
    ensures a == r || a == -r
  {
    if r < 0.0 then -r else r
  }

  /** A double whose `==`, `!=` and `<` are taken up to THRESH. */
  datatype Dbl = Dbl(x: real) {

    /** `operator==`: within the threshold, i.e. inside the closed interval around rhs. */
    predicate Eq(rhs: Dbl)
      ensures Eq(rhs) <==> rhs.x - THRESH <= x <= rhs.x + THRESH
    {
      !(Abs(x - rhs.x) > THRESH)
    }

    /** `operator!=`: evaluated independently of `==`, but its exact negation. */
    predicate Ne(rhs: Dbl)
      ensures Ne(rhs) <==> !Eq(rhs)
    {
      Abs(x - rhs.x) > THRESH
    }

    /** `operator<`: strictly below the threshold band around rhs. */
    predicate Less(rhs: Dbl)
      ensures Less(rhs) <==> x + THRESH < rhs.x
    {
      if Abs(x - rhs.x) > THRESH then x < rhs.x else false
    }
  }

  /** Neither value is below the other. */
  predicate Incomparable(a: Dbl, b: Dbl)
  {
    !a.Less(b) && !b.Less(a)
  }

  lemma EqReflexive(a: Dbl)
    ensures a.Eq(a)
  {
  }

  lemma EqSymmetric(a: Dbl, b: Dbl)
    ensures a.Eq(b) <==> b.Eq(a)
  {
  }

  /** Equality up to the threshold does not chain: three values a step of THRESH apart. */
  lemma EqNotTransitive()
    ensures exists a: Dbl, b: Dbl, c: Dbl :: a.Eq(b) && b.Eq(c) && !a.Eq(c)
  {
    var a, b, c := Dbl(0.0), Dbl(THRESH), Dbl(2.0 * THRESH);
    assert a.Eq(b) && b.Eq(c) && !a.Eq(c);
  }

  lemma LessIrreflexive(a: Dbl)
    ensures !a.Less(a)
  {
  }

  /** Values within the threshold are ordered neither way. */
  lemma LessFalseWhenClose(a: Dbl, b: Dbl)
    requires Abs(a.x - b.x) <= THRESH
    ensures !a.Less(b) && !b.Less(a)
  {
  }

  /** Values farther apart than the threshold are ordered exactly one way, by value. */
  lemma LessTrichotomy(a: Dbl, b: Dbl)
    requires Abs(a.x - b.x) > THRESH
    ensures a.Less(b) != b.Less(a)
    ensures a.Less(b) <==> a.x < b.x
  {
  }

  /** Incomparability under `<` is exactly `==`. */
  lemma IncomparableIffEq(a: Dbl, b: Dbl)
    ensures Incomparable(a, b) <==> a.Eq(b)
  {
  }

  /**
   Because incomparability is `==`, and `==` does not chain, `<` is not a strict
   weak ordering: incomparability is not transitive.
   */
  lemma LessNotStrictWeak()
    ensures exists a: Dbl, b: Dbl, c: Dbl ::
      Incomparable(a, b) && Incomparable(b, c) && !Incomparable(a, c)
  {
    var a, b, c := Dbl(0.0), Dbl(THRESH), Dbl(2.0 * THRESH);
    assert Incomparable(a, b) && Incomparable(b, c) && a.Less(c);
  }

  /** `<` is transitive nevertheless, so it is a strict partial order. */
  lemma LessTransitive(a: Dbl, b: Dbl, c: Dbl)
    requires a.Less(b) && b.Less(c)
    ensures a.Less(c)
  {
  }
}
