/**
 Running minimum/maximum reductions of the refinement driver: an element's
 horizontal footprint box and the spread of its vertex heights.

 Every reduction in the source starts from the sentinels `+max` (for a
 minimum) and `-max` (for a maximum) of `double` and updates with
 `if (min > v) min = v; if (max < v) max = v;`. BIG stands for
 `std::numeric_limits<double>::max()`.
 */
module Geometry {
  import opened Tolerance

  /** `std::numeric_limits<double>::max()`, written as the decimal it prints as. */
  const BIG: real := 1.7976931348623157e308

  /** A value a finite double can hold. */
  predicate Finite(v: real)
  {
    -BIG <= v <= BIG
  }

  predicate AllFinite(zs: seq<real>)
  {
    forall i :: 0 <= i < |zs| ==> Finite(zs[i])
  }

  /** A running (min, max) pair. */
  datatype Range = Range(lo: real, hi: real)

  /** The starting point of every reduction: `min = +max`, `max = -max`. */
  const Sentinels: Range := Range(BIG, -BIG)

  /** One update step of a running min/max. */
  function Include(r: Range, v: real): Range
  {
    Range(if r.lo > v then v else r.lo, if r.hi < v then v else r.hi)
  }

  /** The running min/max of zs, folded from the left starting at the sentinels. */
  function Hull(zs: seq<real>): (r: Range)
    ensures forall i :: 0 <= i < |zs| ==> r.lo <= zs[i] <= r.hi
    ensures r.lo <= BIG && -BIG <= r.hi
    ensures |zs| == 0 ==> r == Sentinels
    decreases |zs|
  {
    if |zs| == 0 then Sentinels else Include(Hull(zs[..|zs| - 1]), zs[|zs| - 1])
  }

  /** On finite values, each bound of a non-empty hull is one of the values. */
  lemma {:induction false} HullAttained(zs: seq<real>)
    requires |zs| > 0 && AllFinite(zs)
    ensures exists i :: 0 <= i < |zs| && Hull(zs).lo == zs[i]
    ensures exists j :: 0 <= j < |zs| && Hull(zs).hi == zs[j]
    decreases |zs|
  {
    var init, last := zs[..|zs| - 1], zs[|zs| - 1];
    if |init| == 0 {
      assert Hull(zs).lo == zs[0] && Hull(zs).hi == zs[0];
    } else {
      assert AllFinite(init) by {
        forall i | 0 <= i < |init| ensures Finite(init[i]) {
          assert init[i] == zs[i];
        }
      }
      HullAttained(init);
      var i :| 0 <= i < |init| && Hull(init).lo == init[i];
      var j :| 0 <= j < |init| && Hull(init).hi == init[j];
      assert init[i] == zs[i] && init[j] == zs[j];
      if Hull(zs).lo != last {
        assert Hull(zs).lo == zs[i];
      }
      if Hull(zs).hi != last {
        assert Hull(zs).hi == zs[j];
      }
    }
  }

  /** Appending one value to the reduced sequence is one more update step. */
  lemma HullSnoc(zs: seq<real>, v: real)
    ensures Hull(zs + [v]) == Include(Hull(zs), v)
  {
    assert (zs + [v])[..|zs|] == zs;
  }

  /** A mesh vertex. */
  datatype Vertex = Vertex(x: real, y: real, z: real)

  function Xs(vs: seq<Vertex>): seq<real>
  {
    seq(|vs|, i requires 0 <= i < |vs| => vs[i].x)
  }

  function Ys(vs: seq<Vertex>): seq<real>
  {
    seq(|vs|, i requires 0 <= i < |vs| => vs[i].y)
  }

  function Zs(vs: seq<Vertex>): seq<real>
  {
    seq(|vs|, i requires 0 <= i < |vs| => vs[i].z)
  }

  /** An axis-aligned horizontal box: `minX/maxX` in xs, `minY/maxY` in ys. */
  datatype Box = Box(xs: Range, ys: Range)

  /**
   The footprint of an element: the x and y reductions over its vertices. The
   source updates both in one loop; they do not interact, so each axis is its
   own reduction here.
   */
  function Footprint(vs: seq<Vertex>): Box
  {
    Box(Hull(Xs(vs)), Hull(Ys(vs)))
  }

  /** Every vertex lies inside the footprint; with no vertex the footprint is the sentinels. */
  lemma FootprintContains(vs: seq<Vertex>)
    ensures forall i :: 0 <= i < |vs| ==>
              Footprint(vs).xs.lo <= vs[i].x <= Footprint(vs).xs.hi &&
              Footprint(vs).ys.lo <= vs[i].y <= Footprint(vs).ys.hi
    ensures |vs| == 0 ==> Footprint(vs) == Box(Sentinels, Sentinels)
  {
    assert forall i :: 0 <= i < |vs| ==> Xs(vs)[i] == vs[i].x && Ys(vs)[i] == vs[i].y;
  }

  /** With at least one vertex, each bound of the footprint is a vertex coordinate. */
  lemma FootprintAttained(vs: seq<Vertex>)
    requires |vs| > 0 && AllFinite(Xs(vs)) && AllFinite(Ys(vs))
    ensures exists i :: 0 <= i < |vs| && Footprint(vs).xs.lo == vs[i].x
    ensures exists i :: 0 <= i < |vs| && Footprint(vs).xs.hi == vs[i].x
    ensures exists i :: 0 <= i < |vs| && Footprint(vs).ys.lo == vs[i].y
    ensures exists i :: 0 <= i < |vs| && Footprint(vs).ys.hi == vs[i].y
  {
    HullAttained(Xs(vs));
    HullAttained(Ys(vs));
  }

  /** The running state of the vertical pass: `minZ`, `maxZ` and `deltaZ`. */
  datatype Spread = Spread(lo: real, hi: real, delta: real)

  /**
   The vertical pass's reduction over vertex heights: min and max as usual, and
   `deltaZ = |maxZ - minZ|`, recomputed after every vertex, so that at the end it
   is the distance between the final bounds; with no vertex it keeps its `-max`.
   */
  function SpreadOf(zs: seq<real>): Spread
  {
    var h := Hull(zs);
    Spread(h.lo, h.hi, if |zs| == 0 then -BIG else Abs(h.hi - h.lo))
  }

  /** Prefixes of a projection grow by one projected vertex at a time. */
  lemma ProjectionSnoc(vs: seq<Vertex>, i: nat)
    requires i < |vs|
    ensures Xs(vs)[..i + 1] == Xs(vs)[..i] + [vs[i].x]
    ensures Ys(vs)[..i + 1] == Ys(vs)[..i] + [vs[i].y]
    ensures Zs(vs)[..i + 1] == Zs(vs)[..i] + [vs[i].z]
  {
    assert Xs(vs)[..i + 1] == Xs(vs)[..i] + [vs[i].x];
    assert Ys(vs)[..i + 1] == Ys(vs)[..i] + [vs[i].y];
    assert Zs(vs)[..i + 1] == Zs(vs)[..i] + [vs[i].z];
  }

  /**
   On finite heights the vertical pass's `deltaZ` exceeds a limit exactly when
   some two vertices differ in height by more than that limit; with no vertex
   it is `-max` and exceeds no positive limit.
   */
  lemma {:induction false} SpreadExceeds(zs: seq<real>, limit: real)
    requires AllFinite(zs) && limit > 0.0
    ensures SpreadOf(zs).delta > limit <==>
              exists i, j :: 0 <= i < |zs| && 0 <= j < |zs| && zs[i] - zs[j] > limit
  {
    if |zs| > 0 {
      HullAttained(zs);
      var h := Hull(zs);
      var i :| 0 <= i < |zs| && h.hi == zs[i];
      var j :| 0 <= j < |zs| && h.lo == zs[j];
      assert SpreadOf(zs).delta == zs[i] - zs[j];
    }
  }
}
